/**
 * Building a Python dict by assigning `d[k] = v` for each pair in turn,
 * where computing `v` may raise: the dict a loop such as
 * `for x in xs: d[key(x)] = value(x)` leaves behind.
 */
module Dicts {
  import opened Wrappers

  /** The dict after assigning every pair of `pairs`, in order, into an empty dict. */
  function Assign<K, V>(pairs: seq<(K, Result<V>)>): Result<map<K, V>>
    decreases |pairs|
  {
    if pairs == [] then Ok(map[])
    else
      var (k, v) := pairs[|pairs| - 1];
      match Assign(pairs[..|pairs| - 1])
      case Err(err) => Err(err)
      case Ok(m) =>
        match v
        case Err(err) => Err(err)
        case Ok(x) => Ok(m[k := x])
  }

  /** One more assignment, made after a prefix that did not raise. */
  lemma AssignPrefixStep<K, V>(pairs: seq<(K, Result<V>)>, i: nat)
    requires i < |pairs| && Assign(pairs[..i]).Ok?
    ensures Assign(pairs[..i + 1]) ==
              match pairs[i].1
              case Err(err) => Err(err)
              case Ok(x) => Ok(Assign(pairs[..i]).value[pairs[i].0 := x])
  {
    assert pairs[..i + 1][..i] == pairs[..i];
  }

  /** The loop raises exactly when one of the values raises. */
  lemma {:induction false} AssignFails<K, V>(pairs: seq<(K, Result<V>)>)
    ensures Assign(pairs).Err? <==> exists i :: 0 <= i < |pairs| && pairs[i].1.Err?
    decreases |pairs|
  {
    if pairs != [] {
      var n := |pairs| - 1;
      var init := pairs[..n];
      AssignFails(init);
      assert forall i :: 0 <= i < n ==> init[i] == pairs[i];
    }
  }

  /** Once a prefix raises, so does the whole loop, with the same exception. */
  lemma {:induction false} AssignErrExtends<K, V>(pairs: seq<(K, Result<V>)>, n: nat)
    requires n <= |pairs| && Assign(pairs[..n]).Err?
    ensures Assign(pairs) == Err(Assign(pairs[..n]).error)
    decreases |pairs|
  {
    if n < |pairs| {
      var init := pairs[..|pairs| - 1];
      assert init[..n] == pairs[..n];
      AssignErrExtends(init, n);
    } else {
      assert pairs[..n] == pairs;
    }
  }

  /** The keys of the dict are exactly the keys of the pairs. */
  lemma {:induction false} AssignKeys<K, V>(pairs: seq<(K, Result<V>)>)
    requires Assign(pairs).Ok?
    ensures Assign(pairs).value.Keys == set i | 0 <= i < |pairs| :: pairs[i].0
    decreases |pairs|
  {
    if pairs != [] {
      var n := |pairs| - 1;
      var init := pairs[..n];
      AssignKeys(init);
      var all := set i | 0 <= i < |pairs| :: pairs[i].0;
      var before := set i | 0 <= i < n :: init[i].0;
      assert all == before + {pairs[n].0} by {
        forall k | k in all ensures k in before + {pairs[n].0} {
          var i :| 0 <= i < |pairs| && k == pairs[i].0;
          if i < n { assert k == init[i].0; }
        }
        forall k | k in before ensures k in all {
          var i :| 0 <= i < n && k == init[i].0;
          assert k == pairs[i].0;
        }
      }
    }
  }

  /** Last write wins: a key holds the value of the last pair with that key. */
  lemma {:induction false} AssignLastWins<K, V>(pairs: seq<(K, Result<V>)>, i: nat)
    requires Assign(pairs).Ok? && i < |pairs|
    requires forall j :: i < j < |pairs| ==> pairs[j].0 != pairs[i].0
    ensures pairs[i].1.Ok?
    ensures pairs[i].0 in Assign(pairs).value
    ensures Assign(pairs).value[pairs[i].0] == pairs[i].1.value
    decreases |pairs|
  {
    var n := |pairs| - 1;
    if i < n {
      var init := pairs[..n];
      assert init[i] == pairs[i];
      assert forall j :: i < j < |init| ==> init[j] == pairs[j];
      AssignLastWins(init, i);
    }
  }
}
