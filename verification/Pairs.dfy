// Lists of key and value pairs, as the answers store keeps them, and what they mean as maps.

module Pairs {
  import opened Wrappers

  type Pair = (string, string)

  // ---- finding and setting, from the front ----

  /** The value of the first pair with the key. */
  function Get(s: seq<Pair>, key: string): Option<string> {
    if s == [] then None else if s[0].0 == key then Some(s[0].1) else Get(s[1..], key)
  }

  /** The value of the first pair with the key replaced, or a new pair at the end. */
  function Set(s: seq<Pair>, key: string, val: string): seq<Pair> {
    if s == [] then [(key, val)]
    else if s[0].0 == key then [(key, val)] + s[1..]
    else [s[0]] + Set(s[1..], key, val)
  }

  function Keys(s: seq<Pair>): (keys: seq<string>)
    ensures |keys| == |s| && forall i :: 0 <= i < |s| ==> keys[i] == s[i].0
  {
    if s == [] then [] else [s[0].0] + Keys(s[1..])
  }

  ghost predicate Distinct(s: seq<Pair>) {
    forall i, j :: 0 <= i < j < |s| ==> s[i].0 != s[j].0
  }

  /** A key found is at some place, and its value is there, or the first there. */
  lemma {:induction false} GetFirst(s: seq<Pair>, key: string, i: nat)
    requires i < |s| && s[i].0 == key && forall j :: 0 <= j < i ==> s[j].0 != key
    ensures Get(s, key) == Some(s[i].1)
    ensures forall val :: Set(s, key, val) == s[i := (key, val)]
    decreases |s|
  {
    if i > 0 {
      GetFirst(s[1..], key, i - 1);
      forall val ensures Set(s, key, val) == s[i := (key, val)] {
        assert [s[0]] + s[1..][i - 1 := (key, val)] == s[i := (key, val)];
      }
    } else {
      assert forall val :: [(key, val)] + s[1..] == s[0 := (key, val)];
    }
  }

  lemma {:induction false} GetNone(s: seq<Pair>, key: string)
    requires forall j :: 0 <= j < |s| ==> s[j].0 != key
    ensures Get(s, key) == None
    ensures forall val :: Set(s, key, val) == s + [(key, val)]
    decreases |s|
  {
    if s != [] {
      GetNone(s[1..], key);
      forall val ensures Set(s, key, val) == s + [(key, val)] {
        assert [s[0]] + (s[1..] + [(key, val)]) == s + [(key, val)];
      }
    }
  }

  /** Setting changes the value of one key, keeps the others, and keeps the order of the keys. */
  lemma {:induction false} SetKeys(s: seq<Pair>, key: string, val: string)
    ensures Keys(Set(s, key, val)) == if key in Keys(s) then Keys(s) else Keys(s) + [key]
  {
    if s != [] {
      assert Keys(s)[1..] == Keys(s[1..]);
      if s[0].0 == key {
        assert Set(s, key, val)[1..] == s[1..];
        assert key == Keys(s)[0];
      } else {
        SetKeys(s[1..], key, val);
        assert Set(s, key, val)[1..] == Set(s[1..], key, val);
        assert key in Keys(s) <==> key in Keys(s[1..]);
      }
    }
  }

  /** No key comes to be in the list twice. */
  lemma SetDistinct(s: seq<Pair>, key: string, val: string)
    requires Distinct(s)
    ensures Distinct(Set(s, key, val))
  {
    var t := Set(s, key, val);
    SetKeys(s, key, val);
    forall i, j | 0 <= i < j < |t| ensures t[i].0 != t[j].0 {
      assert Keys(t)[i] == t[i].0 && Keys(t)[j] == t[j].0;
      if j < |s| {
        assert Keys(s)[i] == s[i].0 && Keys(s)[j] == s[j].0;
      } else {
        assert Keys(s)[i] in Keys(s);
      }
    }
  }

  // ---- as a map ----

  function AsMap(s: seq<Pair>): map<string, string> {
    if s == [] then map[] else AsMap(s[1..])[s[0].0 := s[0].1]
  }

  /** Reading the list is reading the map, unset keys being none. */
  lemma {:induction false} GetIsLookup(s: seq<Pair>, key: string)
    ensures Get(s, key) == if key in AsMap(s) then Some(AsMap(s)[key]) else None
  {
    if s != [] {
      GetIsLookup(s[1..], key);
    }
  }

  /** Setting in the list is updating the map. */
  lemma {:induction false} SetIsUpdate(s: seq<Pair>, key: string, val: string)
    ensures AsMap(Set(s, key, val)) == AsMap(s)[key := val]
  {
    if s != [] {
      if s[0].0 == key {
        assert Set(s, key, val)[1..] == s[1..];
      } else {
        SetIsUpdate(s[1..], key, val);
        assert Set(s, key, val)[1..] == Set(s[1..], key, val);
      }
    }
  }

  // ---- many settings ----

  function SetAll(s: seq<Pair>, updates: seq<Pair>): seq<Pair>
    decreases |updates|
  {
    if updates == [] then s else SetAll(Set(s, updates[0].0, updates[0].1), updates[1..])
  }

  /** Setting distinct new keys one after the other appends them in order: what loading does. */
  lemma {:induction false} SetAllAppends(s: seq<Pair>, updates: seq<Pair>)
    requires Distinct(s + updates)
    ensures SetAll(s, updates) == s + updates
    decreases |updates|
  {
    if updates == [] {
      assert s + updates == s;
    } else {
      var u := updates[0];
      forall j | 0 <= j < |s| ensures s[j].0 != u.0 {
        assert (s + updates)[j] == s[j] && (s + updates)[|s|] == u;
      }
      GetNone(s, u.0);
      assert s + [(u.0, u.1)] + updates[1..] == s + updates;
      SetAllAppends(s + [(u.0, u.1)], updates[1..]);
    }
  }

  /** Every run of settings keeps the keys distinct, and is the same run on the map. */
  lemma {:induction false} RunOfSets(s: seq<Pair>, updates: seq<Pair>)
    requires Distinct(s)
    ensures Distinct(SetAll(s, updates))
    ensures AsMap(SetAll(s, updates)) == Updated(AsMap(s), updates)
    decreases |updates|
  {
    if updates != [] {
      SetDistinct(s, updates[0].0, updates[0].1);
      SetIsUpdate(s, updates[0].0, updates[0].1);
      RunOfSets(Set(s, updates[0].0, updates[0].1), updates[1..]);
    }
  }

  function Updated(m: map<string, string>, updates: seq<Pair>): map<string, string>
    decreases |updates|
  {
    if updates == [] then m else Updated(m[updates[0].0 := updates[0].1], updates[1..])
  }
}
