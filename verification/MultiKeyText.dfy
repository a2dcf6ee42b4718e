/** When a list of keys survives being stored in the channel's key text. */
module MultiKeyText {
  import opened Text
  import opened MultiKey

  /** An array's text is longer than its elements and the commas between them: it has two brackets. */
  ghost predicate Brackets(parse: ArrayParser) {
    forall text :: parse(text).Some? ==> |Join(parse(text).value, ',')| + 2 <= |text|
  }

  /** No line break inside a key, none lost at the ends, and not mistaken for an array. */
  ghost predicate Storable(q: seq<string>, parse: ArrayParser) {
    && q != [] && AllFree(q, '\n')
    && q[0] != "" && q[|q| - 1] != ""
    && AsArray(Join(q, '\n'), parse).None?
  }

  lemma {:induction false} JoinLength(q: seq<string>, a: char, b: char)
    ensures |Join(q, a)| == |Join(q, b)|
  {
    if |q| > 1 { JoinLength(q[..|q| - 1], a, b); }
  }

  lemma TrimShorter(s: string)
    ensures |Trim(s)| <= |s|
  {
    TrimLeftFront(s, IsSpace);
    TrimRightBack(TrimLeft(s, IsSpace), IsSpace);
  }

  lemma {:induction false} SplitFirst(s: string, sep: char)
    requires s != "" && s[0] != sep
    ensures Split(s, sep)[0] != ""
  {
    if |s| == 1 {
      assert s[..0] == "" && Split("", sep) == [""];
    } else {
      assert s[..|s| - 1][0] == s[0];
      SplitFirst(s[..|s| - 1], sep);
    }
  }

  lemma SplitLast(s: string, sep: char)
    requires s != "" && s[|s| - 1] != sep
    ensures var p := Split(s, sep); p[|p| - 1] != ""
  {
  }

  /** Lines never start or end with a blank one unless that is all there is. */
  lemma LinesTight(key: string)
    ensures var q := Lines(key); AllFree(q, '\n') && (q == [""] || (q[0] != "" && q[|q| - 1] != ""))
  {
    var t := TrimBy(key, IsNewline);
    TrimTight(key, IsNewline);
    SplitFree(t, '\n');
    if t != "" {
      SplitFirst(t, '\n');
      SplitLast(t, '\n');
    }
  }

  lemma {:induction false} TrimRightKeepsFirst(s: string, drop: char -> bool)
    requires s != "" && !drop(s[0])
    ensures var t := TrimRight(s, drop); t != "" && t[0] == s[0]
  {
    if drop(s[|s| - 1]) {
      assert s[..|s| - 1][0] == s[0];
      TrimRightKeepsFirst(s[..|s| - 1], drop);
    }
  }

  lemma {:induction false} JoinFirst(q: seq<string>, sep: char)
    requires q != [] && q[0] != ""
    ensures Join(q, sep) != "" && Join(q, sep)[0] == q[0][0]
  {
    if |q| > 1 { JoinFirst(q[..|q| - 1], sep); }
  }

  /** A text that starts with neither white space nor a bracket is no array. */
  lemma NotAnArray(text: string, parse: ArrayParser)
    requires text != "" && !IsSpace(text[0]) && text[0] != '['
    ensures AsArray(text, parse).None?
  {
    TrimRightKeepsFirst(text, IsSpace);
  }

  lemma StorableRoundTrip(q: seq<string>, parse: ArrayParser)
    requires Storable(q, parse)
    ensures Join(q, '\n') != "" && GetKeys(Join(q, '\n'), parse) == q && Lines(Join(q, '\n')) == q
  {
    var text, last := Join(q, '\n'), q[|q| - 1];
    JoinEnds(q, '\n');
    assert text[0] == q[0][0] && text[|text| - 1] == last[|last| - 1];
    assert q[0][0] in q[0] && last[|last| - 1] in last;
    TrimTight(text, IsNewline);
    SplitJoin(q, '\n');
  }

  lemma ArrayIsShorter(q: seq<string>, parse: ArrayParser)
    requires Brackets(parse) && AsArray(Join(q, '\n'), parse).Some?
    ensures AsArray(Join(q, '\n'), parse).value != q
  {
    var text := Join(q, '\n');
    TrimShorter(text);
    JoinLength(q, '\n', ',');
  }

  /** Reading back what was stored gives the same keys exactly when they are storable. */
  lemma StoredKeysIff(q: seq<string>, parse: ArrayParser)
    requires q != [] && Brackets(parse)
    ensures GetKeys(Join(q, '\n'), parse) == q <==> Storable(q, parse)
  {
    var text := Join(q, '\n');
    if Storable(q, parse) {
      StorableRoundTrip(q, parse);
    } else if AsArray(text, parse).Some? {
      ArrayIsShorter(q, parse);
    } else {
      LinesTight(text);
      BlankLine(q);
    }
  }

  /** The one-line blank list is stored as nothing at all. */
  lemma BlankLine(q: seq<string>)
    ensures q == [""] ==> Join(q, '\n') == ""
  {
  }
}
