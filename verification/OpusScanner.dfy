/**
 The duration scanner for Opus in an Ogg container: it looks for page headers,
 keeps the largest granule position and jumps over page bodies. The page
 layout is that of section 6 of RFC 3533; granule positions count samples at
 48 kHz, as section 4 of RFC 7845 says.
 */
module OpusScanner {
  import opened Basics

  /** "OggS" */
  const CAPTURE: seq<byte> := [79, 103, 103, 83]

  /** The capture pattern starts at offset `i`. */
  predicate CaptureAt(s: seq<byte>, i: nat) {
    i + 4 <= |s| && s[i] == CAPTURE[0] && s[i + 1] == CAPTURE[1] && s[i + 2] == CAPTURE[2] && s[i + 3] == CAPTURE[3]
  }

  /** The four bytes there are exactly the letters "OggS". */
  lemma CaptureIff(s: seq<byte>, i: nat)
    ensures CaptureAt(s, i) <==> i + 4 <= |s| && s[i..i + 4] == [79, 103, 103, 83]
  {
    if i + 4 <= |s| {
      var w := s[i..i + 4];
      assert w[0] == s[i] && w[1] == s[i + 1] && w[2] == s[i + 2] && w[3] == s[i + 3];
    }
  }

  const HEADER: nat := 27

  function LittleEndian(b: seq<byte>): nat {
    if b == [] then 0 else b[0] + 256 * LittleEndian(b[1..])
  }

  function Signed(u: nat): int {
    if u < 0x8000_0000_0000_0000 then u else u - 0x1_0000_0000_0000_0000
  }

  function Total(b: seq<byte>): nat {
    if b == [] then 0 else Total(b[..|b| - 1]) + b[|b| - 1]
  }

  function Max(a: int, b: int): int { if a < b then b else a }

  /** The granule position in the header that starts here. */
  function GranuleAt(s: seq<byte>): int
    requires |s| >= HEADER
  {
    Signed(LittleEndian(s[6..14]))
  }

  /** Header, segment table and body: the whole page that starts here, if its table is complete. */
  function PageLength(s: seq<byte>): nat
    requires |s| >= HEADER && |s| >= HEADER + s[26]
  {
    HEADER + s[26] + Total(s[HEADER..HEADER + s[26]])
  }

  /** Offsets, counted from `at`, of the headers the scanner recognises. */
  function Headers(s: seq<byte>, at: nat): seq<nat>
    decreases |s|
  {
    if |s| < HEADER then []
    else if !CaptureAt(s, 0) then Headers(s[1..], at + 1)
    else if |s| < HEADER + s[26] || |s| < PageLength(s) then [at]
    else [at] + Headers(s[PageLength(s)..], at + PageLength(s))
  }

  /** The largest granule position from here on, starting from `largest`. */
  function Largest(s: seq<byte>, largest: int): int
    decreases |s|
  {
    if |s| < HEADER then largest
    else if !CaptureAt(s, 0) then Largest(s[1..], largest)
    else
      var next := Max(largest, GranuleAt(s));
      if |s| < HEADER + s[26] || |s| < PageLength(s) then next
      else Largest(s[PageLength(s)..], next)
  }

  /** Where the scan stands: what it has found and what it finds from here on make up the whole. */
  ghost predicate Scanned(data: seq<byte>, pos: nat, total: int, hits: seq<nat>) {
    if pos <= |data| then Largest(data[pos..], total) == Largest(data, 0) && hits + Headers(data[pos..], pos) == Headers(data, 0)
    else total == Largest(data, 0) && hits == Headers(data, 0)
  }

  /** A miss moves on by one byte. */
  lemma MissStep(data: seq<byte>, pos: nat, total: int, hits: seq<nat>)
    requires pos + HEADER <= |data| && Scanned(data, pos, total, hits) && !CaptureAt(data[pos..], 0)
    ensures Scanned(data, pos + 1, total, hits)
  {
    assert data[pos..][1..] == data[pos + 1..];
  }

  /** A hit is recorded; the scan ends in a page that is cut short and else goes on behind it. */
  lemma HitStep(data: seq<byte>, pos: nat, total: int, hits: seq<nat>)
    requires pos + HEADER <= |data| && Scanned(data, pos, total, hits) && CaptureAt(data[pos..], 0)
    ensures var s := data[pos..];
      var found := Max(total, GranuleAt(s));
      if |s| < HEADER + s[26] then found == Largest(data, 0) && hits + [pos] == Headers(data, 0)
      else Scanned(data, pos + PageLength(s), found, hits + [pos])
  {
    var s := data[pos..];
    if |s| >= HEADER + s[26] && |s| >= PageLength(s) {
      assert s[PageLength(s)..] == data[pos + PageLength(s)..];
      assert hits + ([pos] + Headers(s[PageLength(s)..], pos + PageLength(s))) ==
             hits + [pos] + Headers(s[PageLength(s)..], pos + PageLength(s));
    }
  }

  /** Reading 27 bytes at a time; a miss seeks back 26, a hit skips the page. `hits` are the offsets of the hits. */
  method OpusDuration(data: seq<byte>) returns (duration: real, ghost hits: seq<nat>)
    ensures duration == Largest(data, 0) as real / 48000.0
    ensures hits == Headers(data, 0)
  {
    var total, pos := 0, 0;
    hits := [];
    assert data[0..] == data;
    while pos < |data|
      invariant 0 <= pos && Scanned(data, pos, total, hits)
      decreases |data| - pos
    {
      ghost var start, s := pos, data[pos..];
      var n := if |data| - pos < HEADER then |data| - pos else HEADER;
      var buf := data[pos..pos + n];
      pos := pos + n;
      if n < HEADER {
        return total as real / 48000.0, hits;
      }
      assert buf == s[..HEADER] && buf[6..14] == s[6..14];
      if !CaptureAt(buf, 0) {
        MissStep(data, start, total, hits);
        pos := pos - 26;
        continue;
      }
      HitStep(data, start, total, hits);
      hits := hits + [start];
      var granule := Signed(LittleEndian(buf[6..14]));
      if granule > total {
        total := granule;
      }
      var segments := buf[26];
      if |data| - pos < segments {
        return total as real / 48000.0, hits;
      }
      var table := data[pos..pos + segments];
      assert table == s[HEADER..HEADER + segments];
      pos := pos + segments;
      var size := PageSize(table);
      pos := pos + size;
    }
    assert pos == |data| ==> data[pos..] == [];
    return total as real / 48000.0, hits;
  }

  method PageSize(table: seq<byte>) returns (size: nat)
    ensures size == Total(table)
  {
    size := 0;
    for i := 0 to |table|
      invariant size == Total(table[..i])
    {
      assert table[..i + 1][..i] == table[..i];
      size := size + table[i];
    }
    assert table[..|table|] == table;
  }

  // ---------- One page ----------

  /** A complete page and nothing else. */
  ghost predicate IsPage(page: seq<byte>) {
    && |page| >= HEADER && CaptureAt(page, 0)
    && |page| >= HEADER + page[26] && |page| == PageLength(page)
  }

  lemma PageInFront(page: seq<byte>, rest: seq<byte>)
    requires IsPage(page)
    ensures var s := page + rest;
      && CaptureAt(s, 0) && s[26] == page[26] && GranuleAt(s) == GranuleAt(page)
      && PageLength(s) == |page| && s[|page|..] == rest
  {
    var s := page + rest;
    assert s[6..14] == page[6..14];
    assert s[HEADER..HEADER + s[26]] == page[HEADER..HEADER + page[26]];
  }

  lemma ScanPage(page: seq<byte>, rest: seq<byte>, at: nat, largest: int)
    requires IsPage(page)
    ensures Headers(page + rest, at) == [at] + Headers(rest, at + |page|)
    ensures Largest(page + rest, largest) == Largest(rest, Max(largest, GranuleAt(page)))
  {
    PageInFront(page, rest);
  }

  // ---------- Junk between pages ----------

  ghost predicate NoCapture(junk: seq<byte>) {
    forall i: nat :: i < |junk| ==> !CaptureAt(junk, i)
  }

  /** The capture pattern cannot straddle the start of another one. */
  lemma NoStraddle(junk: seq<byte>, rest: seq<byte>)
    requires NoCapture(junk) && junk != [] && CaptureAt(rest, 0)
    ensures !CaptureAt(junk + rest, 0)
  {
    assert !CaptureAt(junk, 0);
    var s := junk + rest;
    if |junk| < 4 { assert s[|junk|] == rest[0]; }
  }

  lemma NoCaptureRest(junk: seq<byte>)
    requires NoCapture(junk) && junk != []
    ensures NoCapture(junk[1..])
  {
    forall i: nat | i < |junk[1..]| ensures !CaptureAt(junk[1..], i) {
      assert !CaptureAt(junk, i + 1);
    }
  }

  lemma {:induction false} ScanJunk(junk: seq<byte>, rest: seq<byte>, at: nat, largest: int)
    requires NoCapture(junk) && CaptureAt(rest, 0) && |rest| >= HEADER
    ensures Headers(junk + rest, at) == Headers(rest, at + |junk|)
    ensures Largest(junk + rest, largest) == Largest(rest, largest)
  {
    if junk == [] {
      assert junk + rest == rest;
    } else {
      NoStraddle(junk, rest);
      NoCaptureRest(junk);
      assert (junk + rest)[1..] == junk[1..] + rest;
      ScanJunk(junk[1..], rest, at + 1, largest);
    }
  }

  /** No header starts early enough in the tail to be read whole. */
  ghost predicate Quiet(tail: seq<byte>) {
    forall i: nat :: i + HEADER <= |tail| ==> !CaptureAt(tail, i)
  }

  lemma QuietRest(tail: seq<byte>)
    requires Quiet(tail) && tail != []
    ensures Quiet(tail[1..])
  {
    forall i: nat | i + HEADER <= |tail[1..]| ensures !CaptureAt(tail[1..], i) {
      assert !CaptureAt(tail, i + 1);
    }
  }

  lemma {:induction false} ScanTail(tail: seq<byte>, at: nat, largest: int)
    requires Quiet(tail)
    ensures Headers(tail, at) == [] && Largest(tail, largest) == largest
  {
    if |tail| >= HEADER {
      QuietRest(tail);
      assert !CaptureAt(tail, 0);
      ScanTail(tail[1..], at + 1, largest);
    }
  }

  // ---------- Whole streams ----------

  datatype Piece = Piece(junk: seq<byte>, page: seq<byte>)

  ghost predicate ValidPieces(pieces: seq<Piece>) {
    forall i :: 0 <= i < |pieces| ==> NoCapture(pieces[i].junk) && IsPage(pieces[i].page)
  }

  ghost function Stream(pieces: seq<Piece>, tail: seq<byte>): seq<byte> {
    if pieces == [] then tail else pieces[0].junk + (pieces[0].page + Stream(pieces[1..], tail))
  }

  /** Where each page starts. */
  ghost function Starts(pieces: seq<Piece>, at: nat): seq<nat> {
    if pieces == [] then []
    else
      var start := at + |pieces[0].junk|;
      [start] + Starts(pieces[1..], start + |pieces[0].page|)
  }

  /** Where the last page ends. */
  ghost function End(pieces: seq<Piece>, at: nat): nat {
    if pieces == [] then at else End(pieces[1..], at + |pieces[0].junk| + |pieces[0].page|)
  }

  ghost function MaxGranule(pieces: seq<Piece>, largest: int): int
    requires ValidPieces(pieces)
  {
    if pieces == [] then largest else MaxGranule(pieces[1..], Max(largest, GranuleAt(pieces[0].page)))
  }

  lemma ScanPiece(p: Piece, rest: seq<byte>, at: nat, largest: int)
    requires NoCapture(p.junk) && IsPage(p.page)
    ensures var s, start := p.junk + (p.page + rest), at + |p.junk|;
      && Headers(s, at) == [start] + Headers(rest, start + |p.page|)
      && Largest(s, largest) == Largest(rest, Max(largest, GranuleAt(p.page)))
  {
    PageInFront(p.page, rest);
    ScanJunk(p.junk, p.page + rest, at, largest);
    ScanPage(p.page, rest, at + |p.junk|, largest);
  }

  lemma StreamUnfolds(pieces: seq<Piece>, tail: seq<byte>, at: nat, largest: int)
    requires ValidPieces(pieces) && pieces != []
    ensures var p, rest, start := pieces[0], pieces[1..], at + |pieces[0].junk|;
      && ValidPieces(rest) && NoCapture(p.junk) && IsPage(p.page)
      && Stream(pieces, tail) == p.junk + (p.page + Stream(rest, tail))
      && Starts(pieces, at) == [start] + Starts(rest, start + |p.page|)
      && End(pieces, at) == End(rest, start + |p.page|)
      && MaxGranule(pieces, largest) == MaxGranule(rest, Max(largest, GranuleAt(p.page)))
  {
  }

  /** The scanner goes through the pages to whatever comes after the last. */
  lemma {:induction false} ScanStream(pieces: seq<Piece>, tail: seq<byte>, at: nat, largest: int)
    requires ValidPieces(pieces)
    ensures Headers(Stream(pieces, tail), at) == Starts(pieces, at) + Headers(tail, End(pieces, at))
    ensures Largest(Stream(pieces, tail), largest) == Largest(tail, MaxGranule(pieces, largest))
  {
    if pieces == [] {
      assert [] + Headers(tail, at) == Headers(tail, at);
    } else {
      var p := pieces[0];
      var start, rest := at + |p.junk|, pieces[1..];
      StreamUnfolds(pieces, tail, at, largest);
      ScanPiece(p, Stream(rest, tail), at, largest);
      ScanStream(rest, tail, start + |p.page|, Max(largest, GranuleAt(p.page)));
      Regroup(start, Starts(rest, start + |p.page|), Headers(tail, End(rest, start + |p.page|)));
    }
  }

  lemma Regroup(x: nat, a: seq<nat>, b: seq<nat>)
    ensures [x] + (a + b) == [x] + a + b
  {
  }

  /** The fold is the maximum of its start and all granule positions. */
  lemma {:induction false} MaxGranuleIsMax(pieces: seq<Piece>, largest: int)
    requires ValidPieces(pieces)
    ensures MaxGranule(pieces, largest) >= largest
    ensures forall i :: 0 <= i < |pieces| ==> GranuleAt(pieces[i].page) <= MaxGranule(pieces, largest)
    ensures MaxGranule(pieces, largest) == largest ||
            exists i :: 0 <= i < |pieces| && GranuleAt(pieces[i].page) == MaxGranule(pieces, largest)
  {
    if pieces != [] {
      var next, tail := Max(largest, GranuleAt(pieces[0].page)), pieces[1..];
      MaxGranuleIsMax(tail, next);
      forall i | 0 <= i < |pieces| ensures GranuleAt(pieces[i].page) <= MaxGranule(pieces, largest) {
        if i > 0 { assert pieces[i] == tail[i - 1]; }
      }
      if MaxGranule(tail, next) != next {
        var i :| 0 <= i < |tail| && GranuleAt(tail[i].page) == MaxGranule(tail, next);
        assert pieces[i + 1] == tail[i];
      } else if next != largest {
        assert GranuleAt(pieces[0].page) == MaxGranule(pieces, largest);
      }
    }
  }

  /**
   On any pages, with junk before each and after the last, the scanner finds
   exactly the pages, whatever their bodies contain, and computes with the
   largest granule position, or with zero if all are negative.
   */
  lemma ScannerFindsPages(pieces: seq<Piece>, tail: seq<byte>)
    requires ValidPieces(pieces) && Quiet(tail)
    ensures var data := Stream(pieces, tail); var found := Largest(data, 0);
      && Headers(data, 0) == Starts(pieces, 0)
      && 0 <= found && (forall i :: 0 <= i < |pieces| ==> GranuleAt(pieces[i].page) <= found)
      && (found == 0 || exists i :: 0 <= i < |pieces| && GranuleAt(pieces[i].page) == found)
  {
    ScanStream(pieces, tail, 0, 0);
    ScanTail(tail, End(pieces, 0), MaxGranule(pieces, 0));
    MaxGranuleIsMax(pieces, 0);
  }

  /** A page whose header is whole but whose segment table or body is cut short. */
  ghost predicate IsCut(cut: seq<byte>) {
    |cut| >= HEADER && CaptureAt(cut, 0) && (|cut| < HEADER + cut[26] || |cut| < PageLength(cut))
  }

  lemma ScanCut(junk: seq<byte>, cut: seq<byte>, at: nat, largest: int)
    requires NoCapture(junk) && IsCut(cut)
    ensures Headers(junk + cut, at) == [at + |junk|]
    ensures Largest(junk + cut, largest) == Max(largest, GranuleAt(cut))
  {
    ScanJunk(junk, cut, at, largest);
  }

  lemma ScanCutStream(pieces: seq<Piece>, junk: seq<byte>, cut: seq<byte>)
    requires ValidPieces(pieces) && NoCapture(junk) && IsCut(cut)
    ensures var data := Stream(pieces, junk + cut);
      && Headers(data, 0) == Starts(pieces, 0) + [End(pieces, 0) + |junk|]
      && Largest(data, 0) == Max(MaxGranule(pieces, 0), GranuleAt(cut))
  {
    ScanStream(pieces, junk + cut, 0, 0);
    ScanCut(junk, cut, End(pieces, 0), MaxGranule(pieces, 0));
  }

  /** A stream that breaks off inside a page: that page counts too, and the scan ends with it. */
  lemma ScannerCountsCutPage(pieces: seq<Piece>, junk: seq<byte>, cut: seq<byte>)
    requires ValidPieces(pieces) && NoCapture(junk) && IsCut(cut)
    ensures var data := Stream(pieces, junk + cut); var found := Largest(data, 0);
      && Headers(data, 0) == Starts(pieces, 0) + [End(pieces, 0) + |junk|]
      && 0 <= found && GranuleAt(cut) <= found
      && (forall i :: 0 <= i < |pieces| ==> GranuleAt(pieces[i].page) <= found)
      && (found == 0 || found == GranuleAt(cut) ||
          exists i :: 0 <= i < |pieces| && GranuleAt(pieces[i].page) == found)
  {
    ScanCutStream(pieces, junk, cut);
    MaxGranuleIsMax(pieces, 0);
  }

  // ---------- Writing pages ----------

  /** `fields` holds the serial number, page number and checksum. */
  datatype Page = Page(version: byte, flags: byte, granule: int, fields: seq<byte>, lacing: seq<byte>, body: seq<byte>)

  ghost predicate ValidPage(p: Page) {
    && -0x8000_0000_0000_0000 <= p.granule < 0x8000_0000_0000_0000
    && |p.fields| == 12 && |p.lacing| <= 255 && |p.body| == Total(p.lacing)
  }

  function Unsigned(g: int): int {
    if g < 0 then g + 0x1_0000_0000_0000_0000 else g
  }

  function Bytes(n: int, k: nat): seq<byte>
    decreases k
  {
    if k == 0 then [] else [n % 256] + Bytes(n / 256, k - 1)
  }

  function Encode(p: Page): seq<byte>
    requires |p.lacing| <= 255
  {
    Head(p) + p.lacing + p.body
  }

  /** The fixed part of a page header. */
  function Head(p: Page): seq<byte>
    requires |p.lacing| <= 255
  {
    CAPTURE + [p.version, p.flags] + Bytes(Unsigned(p.granule), 8) + p.fields + [|p.lacing|]
  }

  function Power(k: nat): nat { if k == 0 then 1 else 256 * Power(k - 1) }

  lemma {:induction false} BytesRoundTrip(n: nat, k: nat)
    requires n < Power(k)
    ensures |Bytes(n, k)| == k && LittleEndian(Bytes(n, k)) == n
  {
    if k > 0 {
      BytesRoundTrip(n / 256, k - 1);
      assert Bytes(n, k)[1..] == Bytes(n / 256, k - 1);
    }
  }

  lemma Power8()
    ensures Power(8) == 0x1_0000_0000_0000_0000
  {
    assert Power(4) == 0x1_0000_0000;
  }

  lemma HeadFromParts(two: seq<byte>, granule: seq<byte>, fields: seq<byte>, last: byte)
    requires |two| == 2 && |granule| == 8 && |fields| == 12
    ensures var h := CAPTURE + two + granule + fields + [last];
      |h| == HEADER && CaptureAt(h, 0) && h[26] == last && h[6..14] == granule
  {
    var h := CAPTURE + two + granule + fields + [last];
    assert forall i :: 0 <= i < 8 ==> h[6 + i] == granule[i];
    assert h[6..14] == granule;
  }

  lemma HeadLayout(p: Page)
    requires ValidPage(p)
    ensures var h := Head(p);
      && |h| == HEADER && CaptureAt(h, 0) && h[26] == |p.lacing|
      && Signed(LittleEndian(h[6..14])) == p.granule
  {
    Power8();
    BytesRoundTrip(Unsigned(p.granule), 8);
    HeadFromParts([p.version, p.flags], Bytes(Unsigned(p.granule), 8), p.fields, |p.lacing|);
  }

  /** A header in front of its table and body is a page, and is read as it stands. */
  lemma PageFromHead(h: seq<byte>, lacing: seq<byte>, body: seq<byte>)
    requires |h| == HEADER && CaptureAt(h, 0) && h[26] == |lacing| && |body| == Total(lacing)
    ensures IsPage(h + lacing + body) && (h + lacing + body)[6..14] == h[6..14]
  {
    var s := h + lacing + body;
    assert s[26] == h[26] && s[HEADER..HEADER + |lacing|] == lacing;
  }

  /** What is written is a page, and its granule position reads back. */
  lemma EncodeIsPage(p: Page)
    requires ValidPage(p)
    ensures IsPage(Encode(p)) && GranuleAt(Encode(p)) == p.granule
  {
    HeadLayout(p);
    PageFromHead(Head(p), p.lacing, p.body);
  }
}
