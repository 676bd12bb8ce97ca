/** The query of the workday list request, built in `load` with
    `URLSearchParams.set`: `from` and `to` only when set, then `page` and
    `limit`. Parameters are kept as an ordered list of key/value pairs; the
    URL encoding of `toString()` is not modelled. */
module Query {
  import opened JsValues
  import opened Decimal

  /** The four keys the list request uses, in the order `load` sets them. */
  datatype Key = From | To | Page | Limit

  /** The key's text in the URL. */
  function KeyName(k: Key): string
  {
    match k
    case From => "from"
    case To => "to"
    case Page => "page"
    case Limit => "limit"
  }

  /** Distinct keys have distinct names in the URL. */
  lemma KeyNameInjective(a: Key, b: Key)
    ensures KeyName(a) == KeyName(b) <==> a == b
  {
  }

  /** The pairs as `URLSearchParams` holds them, the keys written as their names. */
  function Named(qs: seq<(Key, string)>): (r: seq<(string, string)>)
    ensures |r| == |qs|
    ensures forall i :: 0 <= i < |qs| ==> r[i].0 == KeyName(qs[i].0) && r[i].1 == qs[i].1
  {
    if qs == [] then []
    else
      var rest := Named(qs[1..]);
      assert forall i :: 1 <= i < |qs| ==> qs[i] == qs[1..][i - 1];
      [(KeyName(qs[0].0), qs[0].1)] + rest
  }

  /** `get` by name on the named pairs is the lookup by key the model uses. */
  lemma {:induction false} NamedLookup(qs: seq<(Key, string)>, k: Key)
    ensures Lookup(Named(qs), KeyName(k)) == Lookup(qs, k)
  {
    if qs != [] {
      KeyNameInjective(qs[0].0, k);
      NamedLookup(qs[1..], k);
    }
  }

  /** Position of each key in the fixed order from, to, page, limit. */
  function KeyRank(k: Key): nat
  {
    match k
    case From => 0
    case To => 1
    case Page => 2
    case Limit => 3
  }

  predicate HasKey<K(==,!new)>(qs: seq<(K, string)>, key: K)
  {
    exists i :: 0 <= i < |qs| && qs[i].0 == key
  }

  /** `URLSearchParams.get`: the value of the first pair with that key. */
  function Lookup<K(==,!new)>(qs: seq<(K, string)>, key: K): Option<string>
  {
    if qs == [] then None
    else if qs[0].0 == key then Some(qs[0].1)
    else Lookup(qs[1..], key)
  }

  /** Drops every pair with the given key, keeping the others in order. */
  function RemoveKey<K(==,!new)>(qs: seq<(K, string)>, key: K): (r: seq<(K, string)>)
    ensures !HasKey(r, key)
    ensures !HasKey(qs, key) ==> r == qs
  {
    if qs == [] then []
    else if qs[0].0 == key then RemoveKey(qs[1..], key)
    else [qs[0]] + RemoveKey(qs[1..], key)
  }

  /** The first pair with the key takes the new value; later ones are dropped. */
  function ReplaceFirst<K(==,!new)>(qs: seq<(K, string)>, key: K, value: string): (r: seq<(K, string)>)
    requires HasKey(qs, key)
    ensures Lookup(r, key) == Some(value)
  {
    if qs[0].0 == key then [(key, value)] + RemoveKey(qs[1..], key)
    else
      assert HasKey(qs[1..], key) by {
        var i :| 0 <= i < |qs| && qs[i].0 == key;
        assert qs[1..][i - 1] == qs[i];
      }
      [qs[0]] + ReplaceFirst(qs[1..], key, value)
  }

  /** `URLSearchParams.set`: an existing key takes the new value in the place
      of its first pair, and its later pairs are dropped (`ReplaceFirstAt`);
      a new key goes at the end. */
  function SetParam<K(==,!new)>(qs: seq<(K, string)>, key: K, value: string): (r: seq<(K, string)>)
    ensures Lookup(r, key) == Some(value)
    ensures !HasKey(qs, key) ==> r == qs + [(key, value)]
  {
    if HasKey(qs, key) then ReplaceFirst(qs, key, value)
    else
      LookupAppend(qs, [(key, value)], key);
      qs + [(key, value)]
  }

  /** With `i` the first position holding the key, the pairs before it stay,
      the pair at `i` takes the new value, and every later pair with the key
      is dropped while the others keep their order. */
  lemma {:induction false} ReplaceFirstAt<K(!new)>(qs: seq<(K, string)>, key: K, value: string, i: nat)
    requires i < |qs| && qs[i].0 == key
    requires forall j :: 0 <= j < i ==> qs[j].0 != key
    ensures HasKey(qs, key)
    ensures ReplaceFirst(qs, key, value) == qs[..i] + [(key, value)] + RemoveKey(qs[i + 1..], key)
    decreases i
  {
    if i > 0 {
      var tail := qs[1..];
      assert tail[i - 1] == qs[i];
      assert forall j :: 0 <= j < i - 1 ==> tail[j] == qs[j + 1];
      ReplaceFirstAt(tail, key, value, i - 1);
      assert qs[..i] == [qs[0]] + tail[..i - 1];
      assert qs[i + 1..] == tail[i..];
    }
  }

  /** A lookup finds a value exactly when some pair has the key. */
  lemma {:induction false} LookupFindsPresentKey<K(!new)>(qs: seq<(K, string)>, key: K)
    ensures Lookup(qs, key).Some? <==> HasKey(qs, key)
  {
    if qs != [] && qs[0].0 != key {
      LookupFindsPresentKey(qs[1..], key);
      assert forall i :: 1 <= i < |qs| ==> qs[i] == qs[1..][i - 1];
    }
  }

  /** Looking up a key in a concatenation looks in the first part first. */
  lemma {:induction false} LookupAppend<K(!new)>(a: seq<(K, string)>, b: seq<(K, string)>, key: K)
    ensures Lookup(a + b, key) == if HasKey(a, key) then Lookup(a, key) else Lookup(b, key)
  {
    if a != [] {
      assert (a + b)[1..] == a[1..] + b;
      LookupAppend(a[1..], b, key);
      if a[0].0 != key {
        assert HasKey(a, key) ==> HasKey(a[1..], key) by {
          if HasKey(a, key) {
            var i :| 0 <= i < |a| && a[i].0 == key;
            assert a[1..][i - 1] == a[i];
          }
        }
      }
    } else {
      assert a + b == b;
    }
  }

  /** Removing one key leaves the lookups of every other key as they were. */
  lemma {:induction false} RemoveKeyKeepsOthers<K(!new)>(qs: seq<(K, string)>, key: K, other: K)
    requires other != key
    ensures Lookup(RemoveKey(qs, key), other) == Lookup(qs, other)
  {
    if qs != [] {
      RemoveKeyKeepsOthers(qs[1..], key, other);
    }
  }

  lemma {:induction false} ReplaceFirstKeepsOthers<K(!new)>(qs: seq<(K, string)>, key: K, value: string, other: K)
    requires HasKey(qs, key) && other != key
    ensures Lookup(ReplaceFirst(qs, key, value), other) == Lookup(qs, other)
  {
    if qs[0].0 == key {
      RemoveKeyKeepsOthers(qs[1..], key, other);
    } else {
      assert HasKey(qs[1..], key) by {
        var i :| 0 <= i < |qs| && qs[i].0 == key;
        assert qs[1..][i - 1] == qs[i];
      }
      ReplaceFirstKeepsOthers(qs[1..], key, value, other);
    }
  }

  /** Setting one key leaves the lookups of every other key as they were. */
  lemma SetParamKeepsOthers<K(!new)>(qs: seq<(K, string)>, key: K, value: string, other: K)
    requires other != key
    ensures Lookup(SetParam(qs, key, value), other) == Lookup(qs, other)
  {
    if HasKey(qs, key) {
      ReplaceFirstKeepsOthers(qs, key, value, other);
    } else {
      LookupAppend(qs, [(key, value)], other);
      LookupFindsPresentKey(qs, other);
    }
  }

  lemma {:induction false} ReplaceFirstTwice<K(!new)>(qs: seq<(K, string)>, key: K, v1: string, v2: string)
    requires HasKey(qs, key)
    ensures HasKey(ReplaceFirst(qs, key, v1), key)
    ensures ReplaceFirst(ReplaceFirst(qs, key, v1), key, v2) == ReplaceFirst(qs, key, v2)
  {
    var r := ReplaceFirst(qs, key, v1);
    assert r[0] == qs[0] || r[0] == (key, v1);
    if qs[0].0 == key {
      assert r[0].0 == key;
      assert RemoveKey(r[1..], key) == r[1..];
    } else {
      assert HasKey(qs[1..], key) by {
        var i :| 0 <= i < |qs| && qs[i].0 == key;
        assert qs[1..][i - 1] == qs[i];
      }
      ReplaceFirstTwice(qs[1..], key, v1, v2);
      assert r[1..] == ReplaceFirst(qs[1..], key, v1);
      assert HasKey(r, key) by {
        var j :| 0 <= j < |r[1..]| && r[1..][j].0 == key;
        assert r[j + 1] == r[1..][j];
      }
    }
  }

  lemma {:induction false} ReplaceFirstAtEnd<K(!new)>(qs: seq<(K, string)>, key: K, v1: string, v2: string)
    requires !HasKey(qs, key)
    ensures HasKey(qs + [(key, v1)], key)
    ensures ReplaceFirst(qs + [(key, v1)], key, v2) == qs + [(key, v2)]
  {
    var r := qs + [(key, v1)];
    assert r[|qs|] == (key, v1);
    if qs != [] {
      assert r[1..] == qs[1..] + [(key, v1)];
      assert !HasKey(qs[1..], key);
      ReplaceFirstAtEnd(qs[1..], key, v1, v2);
    } else {
      assert RemoveKey(r[1..], key) == [];
    }
  }

  /** Setting a key twice keeps only the second value, in the first one's place. */
  lemma SetParamTwice<K(!new)>(qs: seq<(K, string)>, key: K, v1: string, v2: string)
    ensures SetParam(SetParam(qs, key, v1), key, v2) == SetParam(qs, key, v2)
  {
    if HasKey(qs, key) {
      ReplaceFirstTwice(qs, key, v1, v2);
    } else {
      ReplaceFirstAtEnd(qs, key, v1, v2);
    }
  }

  /** Every key of the list comes before `key` in the fixed order. */
  predicate RankedBelow(qs: seq<(Key, string)>, key: Key)
  {
    forall i :: 0 <= i < |qs| ==> KeyRank(qs[i].0) < KeyRank(key)
  }

  /** The query built by `load` from the state's dates, page and page size. */
  method BuildQuery(from: Option<string>, to: Option<string>, page: int, limit: int)
    returns (qs: seq<(Key, string)>)
    ensures Lookup(qs, From) == (if Truthy(from) then from else None)
    ensures Lookup(qs, To) == (if Truthy(to) then to else None)
    ensures Lookup(qs, Page) == Some(IntToString(page))
    ensures Lookup(qs, Limit) == Some(IntToString(limit))
    ensures forall i, j :: 0 <= i < j < |qs| ==> KeyRank(qs[i].0) < KeyRank(qs[j].0)
  {
    var pageText, limitText := IntToString(page), IntToString(limit);
    qs := [];
    if Truthy(from) {
      qs := SetParam(qs, From, from.value);
    }
    ghost var fromPart := qs;
    assert RankedBelow(qs, To);
    if Truthy(to) {
      qs := SetParam(qs, To, to.value);
    }
    ghost var dates := qs;
    assert RankedBelow(qs, Page);
    qs := SetParam(qs, Page, pageText);
    assert RankedBelow(qs, Limit);
    qs := SetParam(qs, Limit, limitText);
    assert qs == dates + [(Page, pageText), (Limit, limitText)];
    QueryInOrder(from, to, pageText, limitText, qs);
  }

  /** The facts about the list `load` sets up, written out pair by pair. */
  lemma QueryInOrder(from: Option<string>, to: Option<string>, page: string, limit: string,
                     qs: seq<(Key, string)>)
    requires qs == (if Truthy(from) then [(From, from.value)] else [])
                 + (if Truthy(to) then [(To, to.value)] else [])
                 + [(Page, page), (Limit, limit)]
    ensures Lookup(qs, From) == (if Truthy(from) then from else None)
    ensures Lookup(qs, To) == (if Truthy(to) then to else None)
    ensures Lookup(qs, Page) == Some(page)
    ensures Lookup(qs, Limit) == Some(limit)
    ensures forall i, j :: 0 <= i < j < |qs| ==> KeyRank(qs[i].0) < KeyRank(qs[j].0)
  {
    var tail := [(Page, page), (Limit, limit)];
    LookupFindsPresentKey(qs, From);
    LookupFindsPresentKey(qs, To);
    assert Lookup(tail, Page) == Some(page);
    assert Lookup(tail, Limit) == Some(limit) by {
      assert tail[1..] == [(Limit, limit)];
    }
  }
}
