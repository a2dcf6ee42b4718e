/** The order of model-name lists: by first occurrence, kept by every selection. */
module ModelNamesOrder {
  import opened Text
  import opened ModelNames

  /** The first position whose trimmed name is `x`, or the length if there is none. */
  function FirstNamed(models: seq<string>, x: string): nat {
    if models == [] then 0
    else
      var before := models[..|models| - 1];
      var k := FirstNamed(before, x);
      if k < |before| then k else if Trim(models[|models| - 1]) == x then |before| else |models|
  }

  lemma {:induction false} FirstNamedFacts(models: seq<string>, x: string)
    ensures FirstNamed(models, x) <= |models|
    ensures FirstNamed(models, x) < |models| <==> exists m :: m in models && Trim(m) == x
  {
    if models != [] {
      var before, last := models[..|models| - 1], models[|models| - 1];
      FirstNamedFacts(before, x);
      assert models == before + [last] && last in models;
      if m :| m in before && Trim(m) == x { assert m in models; }
    }
  }

  lemma NormalizeSnoc(models: seq<string>, last: string)
    ensures var r, t := Normalize(models), Trim(last);
      Normalize(models + [last]) == if t == "" || t in r then r else r + [t]
  {
    assert (models + [last])[..|models|] == models;
    var q, t := TrimAll(models), Trim(last);
    if t == "" {
      assert q + [] == q;
    } else {
      assert (q + [t])[..|q|] == q;
    }
  }

  ghost predicate InOrder(r: seq<string>, models: seq<string>) {
    forall i, j :: 0 <= i < j < |r| ==> FirstNamed(models, r[i]) < FirstNamed(models, r[j])
  }

  lemma FirstNamedSnoc(models: seq<string>, last: string, x: string)
    ensures FirstNamed(models + [last], x) ==
      if FirstNamed(models, x) < |models| then FirstNamed(models, x)
      else if Trim(last) == x then |models| else |models| + 1
  {
    assert (models + [last])[..|models|] == models;
  }

  lemma InOrderLater(r: seq<string>, models: seq<string>, all: seq<string>)
    requires InOrder(r, models) && forall i :: 0 <= i < |r| ==> FirstNamed(all, r[i]) == FirstNamed(models, r[i])
    ensures InOrder(r, all)
  {
  }

  lemma InOrderLast(r: seq<string>, t: string, all: seq<string>, n: nat)
    requires InOrder(r, all) && FirstNamed(all, t) == n && forall i :: 0 <= i < |r| ==> FirstNamed(all, r[i]) < n
    ensures InOrder(r + [t], all)
  {
  }

  lemma InOrderSnoc(r: seq<string>, models: seq<string>, last: string, all: seq<string>)
    requires all == models + [last] && InOrder(r, models)
    requires forall i :: 0 <= i < |r| ==> FirstNamed(models, r[i]) < |models|
    ensures InOrder(r, all)
    ensures FirstNamed(models, Trim(last)) >= |models| ==> InOrder(r + [Trim(last)], all)
  {
    forall i | 0 <= i < |r| ensures FirstNamed(all, r[i]) == FirstNamed(models, r[i]) {
      FirstNamedSnoc(models, last, r[i]);
    }
    InOrderLater(r, models, all);
    FirstNamedSnoc(models, last, Trim(last));
    if FirstNamed(models, Trim(last)) >= |models| { InOrderLast(r, Trim(last), all, |models|); }
  }

  /** Names come in the order in which they first occur. */
  lemma {:induction false} NormalizeOrder(models: seq<string>)
    ensures InOrder(Normalize(models), models)
  {
    if models != [] {
      var before, last := models[..|models| - 1], models[|models| - 1];
      var r := Normalize(before);
      NormalizeOrder(before);
      NormalizeFacts(before);
      forall i | 0 <= i < |r| ensures FirstNamed(before, r[i]) < |before| {
        assert r[i] in r;
        FirstNamedFacts(before, r[i]);
      }
      assert models == before + [last];
      NormalizeSnoc(before, last);
      FirstNamedFacts(before, Trim(last));
      InOrderSnoc(r, before, last, models);
    }
  }

  /** `r` is what is left of `q`: its elements at increasing positions. */
  ghost predicate Subsequence(r: seq<string>, q: seq<string>, at: seq<nat>) {
    && |at| == |r| && (forall i :: 0 <= i < |r| ==> at[i] < |q| && r[i] == q[at[i]])
    && (forall i, j :: 0 <= i < j < |at| ==> at[i] < at[j])
  }

  lemma SubsequenceSnoc(r: seq<string>, before: seq<string>, at: seq<nat>, x: string, q: seq<string>)
    requires Subsequence(r, before, at) && q == before + [x]
    ensures Subsequence(r, q, at) && Subsequence(r + [x], q, at + [|before|])
  {
  }

  /** A selection keeps the order: it is the list with the other names left out. */
  lemma {:induction false} FilterOrder(q: seq<string>, keep: string -> bool) returns (at: seq<nat>)
    ensures Subsequence(Filter(q, keep), q, at)
  {
    if q == [] {
      at := [];
    } else {
      var before, x := q[..|q| - 1], q[|q| - 1];
      var r := Filter(before, keep);
      at := FilterOrder(before, keep);
      SubsequenceSnoc(r, before, at, x, q);
      if keep(x) {
        at := at + [|before|];
      } else {
        assert r + [] == r;
      }
    }
  }
}
