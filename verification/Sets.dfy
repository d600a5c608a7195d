/** Cardinalities, behind a function that proofs can hide. */
module Sets {
  function Card<T>(s: set<T>): nat {
    |s|
  }

  lemma CardEmpty<T>(s: set<T>)
    ensures Card(s) == 0 <==> s == {}
  {
  }

  lemma CardInsert<T>(s: set<T>, x: T)
    ensures Card(s + {x}) == if x in s then Card(s) else Card(s) + 1
  {
    if x in s {
      assert s + {x} == s;
    }
  }

  lemma CardDrop<T>(s: set<T>, x: T)
    requires x in s
    ensures Card(s - {x}) == Card(s) - 1
  {
  }

  lemma CardJoin<T>(a: set<T>, b: set<T>)
    requires a !! b
    ensures Card(a + b) == Card(a) + Card(b)
  {
  }

  lemma CardDifference<T>(a: set<T>, b: set<T>)
    requires b <= a
    ensures Card(a - b) == Card(a) - Card(b)
  {
    assert a == b + (a - b);
  }

  lemma CardSubset<T>(a: set<T>, b: set<T>)
    requires a <= b
    ensures Card(a) <= Card(b) && (a != b ==> Card(a) < Card(b))
  {
    assert b == a + (b - a);
  }
}
