/** The string operations the stored lists go through: trimming, splitting and joining. */
module Text {

  function TrimLeft(s: string, drop: char -> bool): string {
    if s != "" && drop(s[0]) then TrimLeft(s[1..], drop) else s
  }

  function TrimRight(s: string, drop: char -> bool): string {
    if s != "" && drop(s[|s| - 1]) then TrimRight(s[..|s| - 1], drop) else s
  }

  function TrimBy(s: string, drop: char -> bool): string {
    TrimRight(TrimLeft(s, drop), drop)
  }

  /** White space as Unicode's White_Space property lists it. */
  predicate IsSpace(c: char) {
    || '\U{9}' <= c <= '\U{D}' || c == '\U{20}' || c == '\U{85}' || c == '\U{A0}' || c == '\U{1680}'
    || '\U{2000}' <= c <= '\U{200A}' || c == '\U{2028}' || c == '\U{2029}' || c == '\U{202F}'
    || c == '\U{205F}' || c == '\U{3000}'
  }

  function Trim(s: string): string { TrimBy(s, IsSpace) }

  /** Neither end is a dropped character. */
  ghost predicate Tight(s: string, drop: char -> bool) {
    s != "" ==> !drop(s[0]) && !drop(s[|s| - 1])
  }

  lemma {:induction false} TrimLeftFront(s: string, drop: char -> bool)
    ensures var t := TrimLeft(s, drop); |t| <= |s| && t == s[|s| - |t|..] && (t != "" ==> !drop(t[0]))
  {
    if s != "" && drop(s[0]) { TrimLeftFront(s[1..], drop); }
  }

  lemma {:induction false} TrimRightBack(s: string, drop: char -> bool)
    ensures var t := TrimRight(s, drop); |t| <= |s| && t == s[..|t|] && (t != "" ==> !drop(t[|t| - 1]))
  {
    if s != "" && drop(s[|s| - 1]) { TrimRightBack(s[..|s| - 1], drop); }
  }

  lemma TrimTight(s: string, drop: char -> bool)
    ensures Tight(TrimBy(s, drop), drop)
    ensures Tight(s, drop) ==> TrimBy(s, drop) == s
  {
    TrimLeftFront(s, drop);
    TrimRightBack(TrimLeft(s, drop), drop);
  }

  /** The pieces between separators: one more than there are separators. */
  function Split(s: string, sep: char): (pieces: seq<string>)
    ensures |pieces| > 0
  {
    if s == "" then [""]
    else
      var before, c := Split(s[..|s| - 1], sep), s[|s| - 1];
      if c == sep then before + [""]
      else before[..|before| - 1] + [before[|before| - 1] + [c]]
  }

  function Join(q: seq<string>, sep: char): string {
    if |q| == 0 then "" else if |q| == 1 then q[0] else Join(q[..|q| - 1], sep) + [sep] + q[|q| - 1]
  }

  ghost predicate AllFree(q: seq<string>, sep: char) {
    forall i :: 0 <= i < |q| ==> sep !in q[i]
  }

  lemma {:induction false} SplitFree(s: string, sep: char)
    ensures AllFree(Split(s, sep), sep)
  {
    if s != "" { SplitFree(s[..|s| - 1], sep); }
  }

  /** Text without a separator only extends the last piece. */
  lemma {:induction false} SplitExtend(s: string, t: string, sep: char)
    requires sep !in t
    ensures var p := Split(s, sep); Split(s + t, sep) == p[..|p| - 1] + [p[|p| - 1] + t]
  {
    var p := Split(s, sep);
    if t == "" {
      assert s + t == s && p[|p| - 1] + t == p[|p| - 1];
    } else {
      var t' := t[..|t| - 1];
      SplitExtend(s, t', sep);
      assert (s + t)[..|s + t| - 1] == s + t';
      assert p[|p| - 1] + t == p[|p| - 1] + t' + [t[|t| - 1]];
    }
  }

  /** A separator and a piece without separators add one piece. */
  lemma SplitPiece(s: string, piece: string, sep: char)
    requires sep !in piece
    ensures Split(s + [sep] + piece, sep) == Split(s, sep) + [piece]
  {
    var head := s + [sep];
    assert head[..|head| - 1] == s;
    SplitExtend(head, piece, sep);
    assert "" + piece == piece;
  }

  lemma {:induction false} SplitJoin(q: seq<string>, sep: char)
    requires |q| > 0 && AllFree(q, sep)
    ensures Split(Join(q, sep), sep) == q
  {
    var last := |q| - 1;
    if last == 0 {
      SplitExtend("", q[0], sep);
      assert "" + q[0] == q[0];
    } else {
      SplitJoin(q[..last], sep);
      SplitPiece(Join(q[..last], sep), q[last], sep);
      assert q == q[..last] + [q[last]];
    }
  }

  /** The joined text starts with the first piece and ends with the last. */
  lemma {:induction false} JoinEnds(q: seq<string>, sep: char)
    requires |q| > 0
    ensures var s := Join(q, sep);
      && q[0] <= s
      && |q[|q| - 1]| <= |s| && s[|s| - |q[|q| - 1]|..] == q[|q| - 1]
      && (|q| > 1 && q[0] == "" ==> s != "" && s[0] == sep)
      && (|q| > 1 && q[|q| - 1] == "" ==> s != "" && s[|s| - 1] == sep)
  {
    if |q| > 1 { JoinEnds(q[..|q| - 1], sep); }
  }
}
