/** The largest key of a map, as the last element of an ordered map. */
module Keys {
  predicate IsLargest(a: nat, keys: set<nat>) {
    a in keys && forall b | b in keys :: b <= a
  }

  lemma {:induction false} LargestExists(keys: set<nat>)
    requires keys != {}
    ensures exists a :: IsLargest(a, keys)
    decreases |keys|
  {
    var k :| k in keys;
    var rest := keys - {k};
    if rest == {} {
      assert keys == {k};
      assert IsLargest(k, keys);
    } else {
      LargestExists(rest);
      var a :| IsLargest(a, rest);
      assert keys == rest + {k};
      assert IsLargest(if k > a then k else a, keys);
    }
  }

  function Largest(keys: set<nat>): (a: nat)
    requires keys != {}
    ensures IsLargest(a, keys)
  {
    LargestExists(keys);
    var a: nat :| a in keys && forall b | b in keys :: b <= a;
    a
  }
}
