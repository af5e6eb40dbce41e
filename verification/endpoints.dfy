/** The ordered endpoint list of the options page and the three list
    operations it performs: append a new entry, make one entry the default,
    delete one entry.

    The page compares entries with JavaScript `==` / `!=` on objects, i.e. by
    reference. A reference is modelled by the `id` field: two entries are the
    same object exactly when their ids are equal. */
module Endpoints {

  /** Identity of an endpoint object. */
  type ObjectId = nat

  datatype Endpoint = Endpoint(id: ObjectId, url: string, active: bool, readonly: bool)

  /** JavaScript reference equality between two endpoint objects. */
  predicate SameObject(a: Endpoint, b: Endpoint) {
    a.id == b.id
  }

  /** Every position of the list holds a distinct object. */
  ghost predicate UniqueIds(s: seq<Endpoint>) {
    forall i, j :: 0 <= i < j < |s| ==> s[i].id != s[j].id
  }

  /** At most one entry is the default. */
  ghost predicate AtMostOneActive(s: seq<Endpoint>) {
    forall i, j :: 0 <= i < j < |s| && s[i].active ==> !s[j].active
  }

  ghost predicate WellFormed(s: seq<Endpoint>) {
    UniqueIds(s) && AtMostOneActive(s)
  }

  function Ids(s: seq<Endpoint>): set<ObjectId> {
    set i | 0 <= i < |s| :: s[i].id
  }

  /** Positions holding the object `x`. */
  function Occurrences(s: seq<Endpoint>, x: Endpoint): set<int> {
    set i | 0 <= i < |s| && SameObject(s[i], x)
  }

  /** Positions of the entries marked active. */
  function ActiveIndices(s: seq<Endpoint>): set<int> {
    set i | 0 <= i < |s| && s[i].active
  }

  /** An identity no entry of `s` has, standing for a newly allocated object. */
  function FreshId(s: seq<Endpoint>): (r: ObjectId)
    ensures forall i :: 0 <= i < |s| ==> s[i].id < r
    decreases |s|
  {
    if |s| == 0 then 0
    else
      var r' := FreshId(s[1..]);
      if s[0].id < r' then r' else s[0].id + 1
  }

  /** `endpoints.concat({url, active: false, readonly: false})`: a new object
      appended after the existing entries. */
  function AppendNew(s: seq<Endpoint>, url: string): (r: seq<Endpoint>)
    ensures |r| == |s| + 1
    ensures r[..|s|] == s
    ensures r[|s|].url == url && !r[|s|].active && !r[|s|].readonly
    ensures r[|s|].id !in Ids(s)
  {
    s + [Endpoint(FreshId(s), url, false, false)]
  }

  /** `setDefault`: every entry keeps its place, identity, url and readonly
      flag, and becomes active exactly when it is the chosen object. */
  function SetDefault(s: seq<Endpoint>, target: Endpoint): (r: seq<Endpoint>)
    ensures |r| == |s|
    ensures forall i :: 0 <= i < |s| ==>
              && r[i].id == s[i].id
              && r[i].url == s[i].url
              && r[i].readonly == s[i].readonly
              && (r[i].active <==> SameObject(s[i], target))
  {
    seq(|s|, i requires 0 <= i < |s| => s[i].(active := SameObject(s[i], target)))
  }

  /** The active entries after `SetDefault` are exactly the occurrences of the
      chosen object, whatever was active before. */
  lemma SetDefaultActiveAreOccurrences(s: seq<Endpoint>, target: Endpoint)
    ensures ActiveIndices(SetDefault(s, target)) == Occurrences(s, target)
  {
  }

  /** In a list of distinct objects, each object occurs only at its own
      position. */
  lemma UniqueOccurrence(s: seq<Endpoint>, k: int)
    requires UniqueIds(s)
    requires 0 <= k < |s|
    ensures Occurrences(s, s[k]) == {k}
  {
  }

  /** When the chosen object is in the list once, it is the one and only
      active entry afterwards. */
  lemma SetDefaultPresent(s: seq<Endpoint>, k: int)
    requires 0 <= k < |s|
    requires Occurrences(s, s[k]) == {k}
    ensures ActiveIndices(SetDefault(s, s[k])) == {k}
  {
    SetDefaultActiveAreOccurrences(s, s[k]);
  }

  /** When the chosen object is not in the list, no entry is active
      afterwards. */
  lemma SetDefaultAbsent(s: seq<Endpoint>, target: Endpoint)
    requires target.id !in Ids(s)
    ensures ActiveIndices(SetDefault(s, target)) == {}
  {
    SetDefaultActiveAreOccurrences(s, target);
    forall i | 0 <= i < |s|
      ensures !SameObject(s[i], target)
    {
      assert s[i].id in Ids(s);
    }
  }

  /** Choosing the same default again changes nothing. */
  lemma SetDefaultIdempotent(s: seq<Endpoint>, target: Endpoint)
    ensures SetDefault(SetDefault(s, target), target) == SetDefault(s, target)
  {
  }

  /** `deleteEndpoint`: `endpoints.filter((e) => e != endpoint)`. */
  function Delete(s: seq<Endpoint>, target: Endpoint): (r: seq<Endpoint>)
    ensures forall e :: e in r <==> e in s && !SameObject(e, target)
    ensures |r| <= |s|
    decreases |s|
  {
    if |s| == 0 then []
    else
      var rest := Delete(s[1..], target);
      assert s == [s[0]] + s[1..];
      if SameObject(s[0], target) then rest else [s[0]] + rest
  }

  /** Filtering distributes over concatenation, so the entries that survive
      keep their relative order. */
  lemma {:induction false} DeleteAppend(a: seq<Endpoint>, b: seq<Endpoint>, target: Endpoint)
    ensures Delete(a + b, target) == Delete(a, target) + Delete(b, target)
    decreases |a|
  {
    if |a| == 0 {
      assert a + b == b;
    } else {
      assert (a + b)[1..] == a[1..] + b;
      DeleteAppend(a[1..], b, target);
    }
  }

  /** Deleting an object that is not in the list leaves the list unchanged. */
  lemma {:induction false} DeleteAbsent(s: seq<Endpoint>, target: Endpoint)
    requires target.id !in Ids(s)
    ensures Delete(s, target) == s
    decreases |s|
  {
    if |s| > 0 {
      assert s[0].id in Ids(s);
      assert Ids(s[1..]) <= Ids(s) by {
        forall i | 0 <= i < |s[1..]|
          ensures s[1..][i].id in Ids(s)
        {
          assert s[1..][i] == s[i + 1];
        }
      }
      DeleteAbsent(s[1..], target);
      assert s == [s[0]] + s[1..];
    }
  }

  /** Deleting an object that occurs once removes exactly that position: the
      list shrinks by one and the other entries keep their order. */
  lemma DeletePresent(s: seq<Endpoint>, k: int)
    requires 0 <= k < |s|
    requires Occurrences(s, s[k]) == {k}
    ensures Delete(s, s[k]) == s[..k] + s[k + 1..]
    ensures |Delete(s, s[k])| == |s| - 1
  {
    var target := s[k];
    assert s == s[..k] + ([s[k]] + s[k + 1..]);
    assert s[k].id !in Ids(s[..k]) by {
      forall j | 0 <= j < k
        ensures s[j].id != s[k].id
      {
        assert j !in Occurrences(s, s[k]);
      }
    }
    assert s[k].id !in Ids(s[k + 1..]) by {
      forall j | k + 1 <= j < |s|
        ensures s[j].id != s[k].id
      {
        assert j !in Occurrences(s, s[k]);
      }
    }
    DeleteAppend(s[..k], [s[k]] + s[k + 1..], target);
    DeleteAppend([s[k]], s[k + 1..], target);
    DeleteAbsent(s[..k], target);
    DeleteAbsent(s[k + 1..], target);
    assert Delete([s[k]], target) == [];
  }

  /** Removing entries from a well-formed list keeps it well-formed. */
  lemma {:induction false} DeleteKeepsWellFormed(s: seq<Endpoint>, target: Endpoint)
    requires WellFormed(s)
    ensures WellFormed(Delete(s, target))
    decreases |s|
  {
    if |s| > 0 {
      var tail := s[1..];
      assert WellFormed(tail);
      DeleteKeepsWellFormed(tail, target);
      var rest := Delete(tail, target);
      if !SameObject(s[0], target) {
        var r := [s[0]] + rest;
        forall j | 0 < j < |r|
          ensures r[j].id != s[0].id
          ensures s[0].active ==> !r[j].active
        {
          assert r[j] == rest[j - 1];
          assert r[j] in tail;
          var m :| 0 <= m < |tail| && tail[m] == r[j];
          assert tail[m] == s[m + 1];
        }
      }
    }
  }

  /** Appending an inactive new object keeps a well-formed list well-formed. */
  lemma AppendNewKeepsWellFormed(s: seq<Endpoint>, url: string)
    requires WellFormed(s)
    ensures WellFormed(AppendNew(s, url))
  {
    var r := AppendNew(s, url);
    forall i | 0 <= i < |s|
      ensures r[i].id != r[|s|].id
    {
      assert r[i] == s[i];
      assert s[i].id in Ids(s);
    }
  }

  /** Choosing a default makes a list with distinct objects well-formed,
      whatever was active before. */
  lemma SetDefaultMakesWellFormed(s: seq<Endpoint>, target: Endpoint)
    requires UniqueIds(s)
    ensures WellFormed(SetDefault(s, target))
  {
  }
}
