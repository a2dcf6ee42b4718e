/** Model-name lists: trimmed, nonempty, without repetition, in order of first occurrence. */
module ModelNames {
  import opened Basics
  import opened Text

  ghost predicate Clean(x: string) { x != "" && Tight(x, IsSpace) }

  /** A list that normalization leaves alone. */
  ghost predicate IsNames(q: seq<string>) {
    NoRepeats(q) && forall i :: 0 <= i < |q| ==> Clean(q[i])
  }

  /** Trimmed names, blanks left out. */
  function TrimAll(models: seq<string>): seq<string> {
    if models == [] then []
    else
      var t := Trim(models[|models| - 1]);
      TrimAll(models[..|models| - 1]) + if t == "" then [] else [t]
  }

  /** First occurrences only. */
  function Uniq(q: seq<string>): seq<string> {
    if q == [] then []
    else
      var r, x := Uniq(q[..|q| - 1]), q[|q| - 1];
      if x in r then r else r + [x]
  }

  function Normalize(models: seq<string>): seq<string> { Uniq(TrimAll(models)) }

  function Filter(q: seq<string>, keep: string -> bool): seq<string> {
    if q == [] then []
    else Filter(q[..|q| - 1], keep) + if keep(q[|q| - 1]) then [q[|q| - 1]] else []
  }

  function Minus(a: seq<string>, b: seq<string>): seq<string> { Filter(a, x => x !in b) }

  function Common(a: seq<string>, b: seq<string>): seq<string> { Filter(a, x => x in b) }

  function Merge(base: seq<string>, appended: seq<string>): seq<string> {
    Normalize(base) + Minus(Normalize(appended), Normalize(base))
  }

  function Subtract(base: seq<string>, removed: seq<string>): seq<string> {
    Minus(Normalize(base), Normalize(removed))
  }

  function Intersect(base: seq<string>, allowed: seq<string>): seq<string> {
    Common(Normalize(base), Normalize(allowed))
  }

  /** Additions win over removals of the same name. */
  function ApplySelected(origin: seq<string>, add: seq<string>, remove: seq<string>): seq<string> {
    var adds := Normalize(add);
    var removes := Subtract(Normalize(remove), adds);
    Subtract(Merge(origin, adds), removes)
  }

  // ---------- What the lists contain ----------

  lemma {:induction false} TrimAllClean(models: seq<string>)
    ensures forall i :: 0 <= i < |TrimAll(models)| ==> Clean(TrimAll(models)[i])
    ensures forall x :: x in TrimAll(models) <==> x != "" && exists m :: m in models && Trim(m) == x
  {
    if models != [] {
      var before, m := models[..|models| - 1], models[|models| - 1];
      TrimAllClean(before);
      TrimTight(m, IsSpace);
      forall x | x != "" && exists k :: k in models && Trim(k) == x ensures x in TrimAll(models) {
        var k :| k in models && Trim(k) == x;
        assert k in before || k == m;
      }
      forall x | x in TrimAll(models) ensures exists k :: k in models && Trim(k) == x {
        if x in TrimAll(before) {
          var k :| k in before && Trim(k) == x;
          assert k in models;
        } else {
          assert m in models;
        }
      }
    }
  }

  lemma {:induction false} UniqFacts(q: seq<string>)
    ensures NoRepeats(Uniq(q)) && forall x :: x in Uniq(q) <==> x in q
    ensures NoRepeats(q) ==> Uniq(q) == q
  {
    if q != [] {
      var before, x := q[..|q| - 1], q[|q| - 1];
      UniqFacts(before);
      assert q == before + [x];
      if NoRepeats(q) { assert x !in before; }
    }
  }

  /** Normalization yields exactly the nonblank trimmed names, each once. */
  lemma NormalizeFacts(models: seq<string>)
    ensures IsNames(Normalize(models))
    ensures forall x :: x in Normalize(models) <==> x != "" && exists m :: m in models && Trim(m) == x
  {
    TrimAllClean(models);
    UniqFacts(TrimAll(models));
    var r := Normalize(models);
    forall i | 0 <= i < |r| ensures Clean(r[i]) {
      assert r[i] in TrimAll(models);
    }
  }

  lemma {:induction false} TrimAllId(q: seq<string>)
    requires forall i :: 0 <= i < |q| ==> Clean(q[i])
    ensures TrimAll(q) == q
  {
    if q != [] {
      TrimAllId(q[..|q| - 1]);
      TrimTight(q[|q| - 1], IsSpace);
    }
  }

  lemma NormalizeId(q: seq<string>)
    requires IsNames(q)
    ensures Normalize(q) == q
  {
    TrimAllId(q);
    UniqFacts(q);
  }

  lemma {:induction false} FilterFacts(q: seq<string>, keep: string -> bool)
    ensures forall x :: x in Filter(q, keep) <==> x in q && keep(x)
    ensures NoRepeats(q) ==> NoRepeats(Filter(q, keep))
  {
    if q != [] {
      var before, x := q[..|q| - 1], q[|q| - 1];
      FilterFacts(before, keep);
      assert q == before + [x];
      if NoRepeats(q) { assert x !in before; }
    }
  }

  lemma {:induction false} FilterExtremes(q: seq<string>, keep: string -> bool)
    ensures (forall i :: 0 <= i < |q| ==> keep(q[i])) ==> Filter(q, keep) == q
    ensures (forall i :: 0 <= i < |q| ==> !keep(q[i])) ==> Filter(q, keep) == []
  {
    if q != [] { FilterExtremes(q[..|q| - 1], keep); }
  }

  lemma FilterNames(q: seq<string>, keep: string -> bool)
    requires IsNames(q)
    ensures IsNames(Filter(q, keep))
  {
    FilterFacts(q, keep);
    var r := Filter(q, keep);
    forall i | 0 <= i < |r| ensures Clean(r[i]) { assert r[i] in q; }
  }

  lemma MinusFacts(a: seq<string>, b: seq<string>)
    requires IsNames(a)
    ensures IsNames(Minus(a, b)) && forall x :: x in Minus(a, b) <==> x in a && x !in b
    ensures (forall x :: x in a ==> x !in b) ==> Minus(a, b) == a
    ensures (forall x :: x in a ==> x in b) ==> Minus(a, b) == []
  {
    FilterNames(a, x => x !in b);
    FilterFacts(a, x => x !in b);
    FilterExtremes(a, x => x !in b);
    assert forall i :: 0 <= i < |a| ==> a[i] in a;
  }

  lemma CommonFacts(a: seq<string>, b: seq<string>)
    requires IsNames(a)
    ensures IsNames(Common(a, b)) && forall x :: x in Common(a, b) <==> x in a && x in b
    ensures (forall x :: x in a ==> x in b) ==> Common(a, b) == a
    ensures (forall x :: x in a ==> x !in b) ==> Common(a, b) == []
  {
    FilterNames(a, x => x in b);
    FilterFacts(a, x => x in b);
    FilterExtremes(a, x => x in b);
    assert forall i :: 0 <= i < |a| ==> a[i] in a;
  }

  /** Merging keeps the base in front and adds exactly what it lacked. */
  lemma MergeFacts(base: seq<string>, appended: seq<string>)
    ensures IsNames(Merge(base, appended)) && Normalize(base) <= Merge(base, appended)
    ensures forall x :: x in Merge(base, appended) <==> x in Normalize(base) || x in Normalize(appended)
  {
    NormalizeFacts(base);
    NormalizeFacts(appended);
    var a, b := Normalize(base), Normalize(appended);
    MinusFacts(b, a);
    var d := Minus(b, a);
    forall i, j | 0 <= i < |a| && 0 <= j < |d| ensures a[i] != d[j] {
      assert d[j] in d && a[i] in a;
    }
  }

  /** The loop over a set of names already seen computes the merge. */
  method MergeModelNames(base: seq<string>, appended: seq<string>) returns (merged: seq<string>)
    ensures merged == Merge(base, appended)
  {
    ghost var a := Normalize(base);
    merged := Normalize(base);
    var seen := set x | x in merged;
    var b := Normalize(appended);
    NormalizeFacts(appended);
    for i := 0 to |b|
      invariant merged == a + Minus(b[..i], a)
      invariant forall x :: x in seen <==> x in a || x in b[..i]
    {
      assert b[..i + 1][..i] == b[..i];
      if b[i] !in seen {
        seen := seen + {b[i]};
        merged := merged + [b[i]];
        assert a + (Minus(b[..i], a) + [b[i]]) == a + Minus(b[..i], a) + [b[i]];
      } else {
        assert b[i] !in b[..i];
        assert Minus(b[..i], a) + [] == Minus(b[..i], a);
      }
    }
    assert b[..|b|] == b;
  }
}
