// The answers store: two growing lists of keys and values, the answers and the stage
// statuses, which the source keeps as parallel arrays with their own count and capacity.

module Answers {
  import opened Wrappers
  import opened Pairs

  function Zip(keys: seq<string>, vals: seq<string>): (s: seq<Pair>)
    requires |keys| == |vals|
    ensures |s| == |keys| && forall i :: 0 <= i < |s| ==> s[i] == (keys[i], vals[i])
  {
    seq(|keys|, i requires 0 <= i < |keys| => (keys[i], vals[i]))
  }

  /** One list: `n` keys with their values in two arrays of the same capacity. */
  class Store {
    var keys: array<string>
    var vals: array<string>
    var n: nat

    ghost predicate Valid()
      reads this, keys, vals
    {
      keys != vals && keys.Length == vals.Length && n <= keys.Length && Distinct(Contents())
    }

    ghost function Contents(): (s: seq<Pair>)
      requires n <= keys.Length && n <= vals.Length
      reads this, keys, vals
      ensures |s| == n
    {
      Zip(keys[..n], vals[..n])
    }

    constructor ()
      ensures Valid() && fresh(keys) && fresh(vals) && Contents() == []
    {
      keys, vals, n := new string[0], new string[0], 0;
    }

    /** bp_answers_get, bp_stage_status */
    method Get(key: string) returns (r: Option<string>)
      requires Valid()
      ensures r == Pairs.Get(Contents(), key)
    {
      for i := 0 to n
        invariant forall j :: 0 <= j < i ==> keys[j] != key
      {
        if keys[i] == key {
          GetFirst(Contents(), key, i);
          return Some(vals[i]);
        }
      }
      GetNone(Contents(), key);
      return None;
    }

    /** ans_grow, st_grow: room for one more, doubling the capacity from eight on. */
    method Grow()
      requires Valid()
      modifies this
      ensures Valid() && n == old(n) && Contents() == old(Contents()) && n < keys.Length
      ensures keys.Length == if old(n) < old(keys.Length) then old(keys.Length)
                             else if old(keys.Length) == 0 then 8 else 2 * old(keys.Length)
      ensures (keys == old(keys) || fresh(keys)) && (vals == old(vals) || fresh(vals))
    {
      if n + 1 > keys.Length {
        var cap := if keys.Length > 0 then 2 * keys.Length else 8;
        ghost var before := Contents();
        var k, v := new string[cap], new string[cap];
        for i := 0 to n
          invariant keys == old(keys) && vals == old(vals) && n == old(n)
          invariant k[..i] == keys[..i] && v[..i] == vals[..i]
        {
          k[i], v[i] := keys[i], vals[i];
        }
        keys, vals := k, v;
        assert Contents() == before;
      }
    }

    /** bp_answers_set, bp_set_stage_status */
    method Set(key: string, val: string)
      requires Valid()
      modifies this, keys, vals
      ensures Valid() && Contents() == Pairs.Set(old(Contents()), key, val)
      ensures (keys == old(keys) || fresh(keys)) && (vals == old(vals) || fresh(vals))
    {
      ghost var before := Contents();
      SetDistinct(before, key, val);
      for i := 0 to n
        invariant forall j :: 0 <= j < i ==> keys[j] != key
      {
        if keys[i] == key {
          GetFirst(before, key, i);
          vals[i] := val;
          assert Contents() == before[i := (key, val)];
          return;
        }
      }
      GetNone(before, key);
      Grow();
      keys[n], vals[n] := key, val;
      n := n + 1;
      assert Contents() == before + [(key, val)];
    }
  }

  /** The whole store as a value. */
  datatype Record = Record(flavor: Option<string>, installDone: bool, oobeDone: bool,
                           answers: seq<Pair>, status: seq<Pair>)

  const EMPTY := Record(None, false, false, [], [])

  class Book {
    var flavor: Option<string>
    var installDone: bool
    var oobeDone: bool
    const answers: Store
    const status: Store

    /** The objects and arrays that the book owns. */
    ghost function Repr(): set<object>
      reads this, answers, status
    {
      {this, answers, status, answers.keys, answers.vals, status.keys, status.vals}
    }

    ghost predicate Valid()
      reads this, answers, status, answers.keys, answers.vals, status.keys, status.vals
    {
      && answers != status && {answers.keys, answers.vals} !! {status.keys, status.vals}
      && answers.Valid() && status.Valid()
    }

    ghost function Value(): Record
      requires Valid()
      reads this, answers, status, answers.keys, answers.vals, status.keys, status.vals
    {
      Record(flavor, installDone, oobeDone, answers.Contents(), status.Contents())
    }

    constructor ()
      ensures Valid() && fresh(Repr()) && Value() == EMPTY
    {
      flavor, installDone, oobeDone := None, false, false;
      answers := new Store();
      status := new Store();
    }

    /** bp_set_stage_status */
    method SetStatus(id: string, state: string)
      requires Valid()
      modifies Repr()
      ensures Valid() && fresh(Repr() - old(Repr()))
      ensures Value() == old(Value()).(status := Pairs.Set(old(Value()).status, id, state))
    {
      status.Set(id, state);
    }
  }
}
