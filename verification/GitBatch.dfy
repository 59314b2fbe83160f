/** Extraction of declared files from a git commit: the tree scan that runs before any write, and the
    index loop that cuts `git cat-file --batch` output back into blobs. Bytes are chars. */
module GitBatch {
  import opened Outcomes
  import opened Paths

  // ---- Path admission and overlap -------------------------------------------------------------

  /** The ASCII characters that `str.strip` and `str.split` treat as whitespace: tab to carriage return,
      the four separators, and the space. */
  predicate IsSpace(c: char) {
    9 as char <= c <= 13 as char || 28 as char <= c <= 32 as char
  }

  /** The white characters, by their codes. */
  ghost predicate White(c: char) {
    c as int in {9, 10, 11, 12, 13, 28, 29, 30, 31, 32}
  }

  lemma SpaceIff(c: char)
    ensures IsSpace(c) <==> White(c)
  {}

  /** `admit_manifest_relative_path_v1`, on ASCII text. */
  predicate Admitted(path: string) {
    && path != "" && '\\' !in path
    && !IsSpace(path[0]) && !IsSpace(path[|path| - 1])
    && path[0] != '/'
    && AllClean(Split(path))
  }

  function LStrip(s: string): (r: string)
    ensures |r| <= |s|
  {
    if s != "" && s[0] == '/' then LStrip(s[1..]) else s
  }

  function OverlapParts(path: string): seq<string> {
    Filter(Split(RStrip(LStrip(path))), (p: string) => p != "" && p != ".")
  }

  /** `paths_overlap` */
  predicate PathsOverlap(a: string, b: string) {
    var pa, pb := OverlapParts(a), OverlapParts(b);
    var n := if |pa| <= |pb| then |pa| else |pb|;
    pa != [] && pb != [] && pa[..n] == pb[..n]
  }

  function Joined(parts: seq<string>): string
    requires parts != []
  {
    parts[0] + Slashed(parts[1..])
  }

  lemma {:induction false} JoinSplit(s: string)
    ensures s == Joined(Split(s))
  {
    if s != "" {
      JoinSplit(s[1..]);
      var rest := Split(s[1..]);
      if s[0] == '/' {
        assert ([""] + rest)[1..] == rest && rest == [rest[0]] + rest[1..];
        assert Slashed(rest) == "/" + rest[0] + Slashed(rest[1..]);
      } else {
        assert ([[s[0]] + rest[0]] + rest[1..])[1..] == rest[1..];
      }
    }
  }

  lemma SplitJoined(parts: seq<string>)
    requires parts != [] && AllClean(parts)
    ensures Split(Joined(parts)) == parts && Joined(parts) != "" && Joined(parts)[0] != '/'
  {
    assert Clean(parts[0]) && parts == [parts[0]] + parts[1..];
    assert forall c :: c in parts[1..] ==> c in parts && Clean(c);
    SplitSlashed(parts[1..]);
    SplitComponent(parts[0], Slashed(parts[1..]));
    assert parts[0] + "" == parts[0];
    assert ([""] + parts[1..])[1..] == parts[1..];
    assert Joined(parts)[0] == parts[0][0];
  }

  /** An admitted path, exactly: clean components joined by single slashes, with no backslash in them and no
      white space at either end. */
  lemma AdmittedIff(path: string)
    ensures Admitted(path) <==>
      && (exists parts: seq<string> :: parts != [] && AllClean(parts) && path == Joined(parts))
      && '\\' !in path && path != "" && !White(path[0]) && !White(path[|path| - 1])
  {
    forall c ensures IsSpace(c) <==> White(c) { SpaceIff(c); }
    if Admitted(path) { JoinSplit(path); }
    if parts: seq<string> :| parts != [] && AllClean(parts) && path == Joined(parts) { SplitJoined(parts); }
  }

  lemma {:induction false} FilterAll(s: seq<string>, p: string -> bool)
    requires forall x :: x in s ==> p(x)
    ensures Filter(s, p) == s
  {
    if s != [] {
      assert s[0] in s;
      FilterAll(s[1..], p);
      assert s == [s[0]] + s[1..];
    }
  }

  lemma AdmittedStrips(path: string)
    requires Admitted(path)
    ensures RStrip(LStrip(path)) == path
  {
    JoinSplit(path);
    var parts := Split(path);
    var n := |parts| - 1;
    var last := parts[n];
    assert Clean(last) && parts == parts[..n] + [last];
    if n == 0 {
      assert parts[1..] == [] && path == last + "";
    } else {
      assert parts[1..] == parts[1..n] + [last];
      SlashedLast(parts[1..n], last);
      assert path == parts[0] + (Slashed(parts[1..n]) + ("/" + last));
    }
    assert path[|path| - 1] == last[|last| - 1];
  }

  lemma SlashFirst(head: string, tail: string)
    ensures "/" + (head + tail) == "/" + head + tail
  {}

  lemma AdmittedRender(path: string)
    requires Admitted(path)
    ensures "/" + path == Render(Split(path))
  {
    hide Split;
    JoinSplit(path);
    SlashFirst(Split(path)[0], Slashed(Split(path)[1..]));
  }

  /** Admission leaves the components of a path exactly as overlap sees them. */
  lemma AdmittedParts(path: string)
    requires Admitted(path)
    ensures OverlapParts(path) == Split(path)
  {
    AdmittedStrips(path);
    FilterAll(Split(path), (p: string) => p != "" && p != ".");
  }

  lemma PrefixAfterSlash(x: string, y: string)
    ensures "/" + x <= "/" + y <==> x <= y
  {
    if "/" + x <= "/" + y {
      assert x == ("/" + x)[1..] && y == ("/" + y)[1..];
      assert ("/" + y)[..|x| + 1][1..] == y[..|x|];
    }
  }

  lemma RootedWithin(a: string, b: string)
    requires Admitted(a) && Admitted(b)
    ensures Within("/" + a, "/" + b) <==> a == b || b + "/" <= a
  {
    AdmittedRender(b);
    SlashedEndsClean(Split(b));
    PrefixAfterSlash(b + "/", a);
    assert "/" + b + "/" == "/" + (b + "/");
    assert a == ("/" + a)[1..] && b == ("/" + b)[1..];
  }

  lemma PrefixEitherWay(pa: seq<string>, pb: seq<string>)
    ensures var n := if |pa| <= |pb| then |pa| else |pb|;
      pa[..n] == pb[..n] <==> pa <= pb || pb <= pa
  {
    assert pa[..|pa|] == pa && pb[..|pb|] == pb;
  }

  /** For admitted paths the component test is the textual one: equal, or one is an ancestor
      directory of the other. */
  lemma OverlapIff(a: string, b: string)
    requires Admitted(a) && Admitted(b)
    ensures PathsOverlap(a, b) <==> a == b || a + "/" <= b || b + "/" <= a
  {
    AdmittedParts(a);
    AdmittedParts(b);
    AdmittedRender(a);
    AdmittedRender(b);
    WithinIsPrefix(Split(a), Split(b));
    WithinIsPrefix(Split(b), Split(a));
    RootedWithin(a, b);
    RootedWithin(b, a);
    PrefixEitherWay(Split(a), Split(b));
  }

  /** The components of a path that name something. */
  function Named(path: string): seq<string> {
    Filter(Split(path), (p: string) => p != "" && p != ".")
  }

  lemma {:induction false} LStripNamed(s: string)
    ensures Named(LStrip(s)) == Named(s)
  {
    if s != "" && s[0] == '/' {
      LStripNamed(s[1..]);
      assert Split(s)[1..] == Split(s[1..]);
    }
  }

  lemma {:induction false} RStripNamed(s: string)
    ensures Named(RStrip(s)) == Named(s)
  {
    if s != "" && s[|s| - 1] == '/' {
      var front := s[..|s| - 1];
      RStripNamed(front);
      SplitAt(front, "");
      assert s == front + ("/" + "") && Split("") == [""];
      FilterAppend(Split(front), [""], (p: string) => p != "" && p != ".");
      assert [""][1..] == [];
      assert Filter([""], (p: string) => p != "" && p != ".") == [];
    }
  }

  /** For any two paths, overlap is: both name something, and the components of one begin those of the other. */
  lemma OverlapNamed(a: string, b: string)
    ensures PathsOverlap(a, b) <==> Named(a) != [] && Named(b) != [] && (Named(a) <= Named(b) || Named(b) <= Named(a))
  {
    LStripNamed(a);
    RStripNamed(LStrip(a));
    LStripNamed(b);
    RStripNamed(LStrip(b));
    PrefixEitherWay(Named(a), Named(b));
  }

  // ---- Batch output ---------------------------------------------------------------------------

  /** `data.find(b"\n", idx)`; `None` for -1. */
  function FindNewline(data: string, idx: nat): (r: Option<nat>)
    ensures r.Some? ==> idx <= r.value < |data| && data[r.value] == '\n' && '\n' !in data[idx..r.value]
    ensures r.None? ==> forall i :: idx <= i < |data| ==> data[i] != '\n'
    decreases |data| - idx
  {
    if idx >= |data| then None
    else if data[idx] == '\n' then Some(idx)
    else
      var rest := FindNewline(data, idx + 1);
      assert rest.Some? ==> data[idx..rest.value] == [data[idx]] + data[idx + 1..rest.value];
      rest
  }

  /** Pieces between whitespace characters, empty ones included. */
  function Fields(s: string): (parts: seq<string>)
    ensures parts != []
  {
    if s == "" then [""]
    else
      var rest := Fields(s[1..]);
      if IsSpace(s[0]) then [""] + rest else [[s[0]] + rest[0]] + rest[1..]
  }

  /** `s.split()` */
  function Words(s: string): seq<string> {
    NonEmpty(Fields(s))
  }

  predicate IsDigit(c: char) { '0' <= c <= '9' }

  function DigitValue(c: char): nat
    requires IsDigit(c)
  {
    c as int - '0' as int
  }

  function Digit(d: nat): (c: char)
    requires d < 10
    ensures IsDigit(c) && DigitValue(c) == d
  {
    ('0' as int + d) as char
  }

  function Decimal(n: nat): (s: string)
    ensures s != "" && forall c :: c in s ==> IsDigit(c)
  {
    if n < 10 then [Digit(n)] else Decimal(n / 10) + [Digit(n % 10)]
  }

  function ParseDecimal(s: string): Option<nat> {
    if s == "" || !IsDigit(s[|s| - 1]) then None
    else if |s| == 1 then Some(DigitValue(s[0]))
    else
      match ParseDecimal(s[..|s| - 1])
      case None => None
      case Some(high) => Some(high * 10 + DigitValue(s[|s| - 1]))
  }

  lemma {:induction false} DecimalRoundTrip(n: nat)
    ensures ParseDecimal(Decimal(n)) == Some(n)
  {
    if n >= 10 {
      DecimalRoundTrip(n / 10);
      var s := Decimal(n);
      assert s[..|s| - 1] == Decimal(n / 10);
    }
  }

  datatype Cut = Cut(content: string, next: nat)

  /** One round of the batch loop. */
  function DecodeAt(data: string, idx: nat): Option<Cut> {
    match FindNewline(data, idx)
    case None => None
    case Some(headerEnd) =>
      var parts := Words(data[idx..headerEnd]);
      if |parts| < 3 || parts[1] != "blob" then None
      else
        match ParseDecimal(parts[2])
        case None => None
        case Some(size) =>
          var start := headerEnd + 1;
          var stop := if start + size <= |data| then start + size else |data|;
          Some(Cut(data[start..stop], start + size + 1))
  }

  /** What `git cat-file --batch` prints for one blob. */
  datatype Blob = Blob(sha: string, content: string)

  predicate Printable(b: Blob) {
    b.sha != "" && forall c :: c in b.sha ==> !IsSpace(c)
  }

  function Header(b: Blob): string {
    b.sha + (" " + ("blob" + (" " + Decimal(|b.content|))))
  }

  function Print(b: Blob): string {
    Header(b) + ("\n" + (b.content + "\n"))
  }

  function Stream(blobs: seq<Blob>): string {
    if blobs == [] then "" else Print(blobs[0]) + Stream(blobs[1..])
  }

  lemma {:induction false} FieldsWord(w: string, rest: string)
    requires forall c :: c in w ==> !IsSpace(c)
    requires rest == "" || IsSpace(rest[0])
    ensures Fields(w + rest) == if rest == "" then [w] else [w] + Fields(rest[1..])
  {
    if w == "" {
      assert w + rest == rest;
    } else {
      assert w[0] in w;
      FieldsWord(w[1..], rest);
      assert w + rest == [w[0]] + (w[1..] + rest) && (w + rest)[1..] == w[1..] + rest;
      assert [w[0]] + w[1..] == w;
      assert ([w[1..]] + Fields(rest[if rest == "" then 0 else 1..]))[1..] == Fields(rest[if rest == "" then 0 else 1..]);
    }
  }

  lemma WordBefore(w: string, rest: string)
    requires w != "" && forall c :: c in w ==> !IsSpace(c)
    ensures Words(w + (" " + rest)) == [w] + Words(rest)
  {
    FieldsWord(w, " " + rest);
    assert (" " + rest)[1..] == rest;
    assert ([w] + Fields(rest))[1..] == Fields(rest);
  }

  lemma LastWord(w: string)
    requires w != "" && forall c :: c in w ==> !IsSpace(c)
    ensures Words(w) == [w]
  {
    FieldsWord(w, "");
    assert w + "" == w;
    assert NonEmpty([w]) == [w] + NonEmpty([w][1..]) && [w][1..] == [];
  }

  lemma HeaderWords(b: Blob)
    requires Printable(b)
    ensures Words(Header(b)) == [b.sha, "blob", Decimal(|b.content|)]
  {
    var size := Decimal(|b.content|);
    WordBefore(b.sha, "blob" + (" " + size));
    WordBefore("blob", size);
    LastWord(size);
  }

  lemma HeaderHasNoNewline(b: Blob)
    requires Printable(b)
    ensures '\n' !in Header(b)
  {
    assert forall c :: c in Decimal(|b.content|) ==> IsDigit(c);
  }

  lemma {:induction false} FindAfter(data: string, idx: nat, gap: nat)
    requires idx + gap < |data| && data[idx + gap] == '\n'
    requires forall i :: idx <= i < idx + gap ==> data[i] != '\n'
    ensures FindNewline(data, idx) == Some(idx + gap)
    decreases gap
  {
    if gap > 0 { FindAfter(data, idx + 1, gap - 1); }
  }

  /** The header alone decides the cut: `body` is whatever follows the header line. */
  lemma DecodeHeader(pre: string, b: Blob, body: string)
    requires Printable(b)
    ensures var start := |pre| + |Header(b)| + 1;
      var n := if |b.content| <= |body| then |b.content| else |body|;
      DecodeAt(pre + (Header(b) + ("\n" + body)), |pre|) == Some(Cut(body[..n], start + |b.content| + 1))
  {
    var h := Header(b);
    var data := pre + (h + ("\n" + body));
    HeaderHasNoNewline(b);
    forall i | |pre| <= i < |pre| + |h| ensures data[i] != '\n' { assert data[i] == h[i - |pre|]; }
    FindAfter(data, |pre|, |h|);
    assert data[|pre|..|pre| + |h|] == h;
    HeaderWords(b);
    DecimalRoundTrip(|b.content|);
    var start := |pre| + |h| + 1;
    assert data[start..] == body && |data| == start + |body|;
    var n := if |b.content| <= |body| then |b.content| else |body|;
    assert data[start..start + n] == body[..n];
  }

  lemma RegroupPrint(pre: string, header: string, content: string, post: string)
    ensures pre + (header + ("\n" + (content + "\n"))) + post == pre + (header + ("\n" + (content + ("\n" + post))))
  {}

  lemma DecodePrinted(pre: string, b: Blob, post: string)
    requires Printable(b)
    ensures DecodeAt(pre + Print(b) + post, |pre|) == Some(Cut(b.content, |pre + Print(b)|))
  {
    hide DecodeAt, Header;
    var body := b.content + ("\n" + post);
    RegroupPrint(pre, Header(b), b.content, post);
    DecodeHeader(pre, b, body);
    assert body[..|b.content|] == b.content;
  }

  /** What the loop recovers from `n` rounds starting at `idx`: the contents, and whether it got
      through all of them. */
  datatype Decoded = Decoded(contents: seq<string>, complete: bool, end: nat)

  function DecodeAll(data: string, idx: nat, n: nat): (d: Decoded)
    ensures |d.contents| <= n && (d.complete <==> |d.contents| == n)
    decreases n
  {
    if n == 0 then Decoded([], true, idx)
    else
      match DecodeAt(data, idx)
      case None => Decoded([], false, idx)
      case Some(cut) =>
        var rest := DecodeAll(data, cut.next, n - 1);
        Decoded([cut.content] + rest.contents, rest.complete, rest.end)
  }

  function Contents(blobs: seq<Blob>): (cs: seq<string>)
    ensures |cs| == |blobs|
  {
    seq(|blobs|, i requires 0 <= i < |blobs| => blobs[i].content)
  }

  lemma Regroup(pre: string, first: string, rest: string, post: string)
    ensures pre + (first + rest) + post == pre + first + (rest + post)
    ensures pre + (first + rest) + post == (pre + first) + rest + post
    ensures pre + (first + rest) == (pre + first) + rest
  {}

  lemma ContentsCons(blobs: seq<Blob>)
    requires blobs != []
    ensures Contents(blobs) == [blobs[0].content] + Contents(blobs[1..])
  {}

  /** Decoding undoes printing: any blobs, newlines in their contents included, between any other
      output, come back in order and the loop stops where their output stops. */
  lemma {:induction false} BatchRoundTrip(pre: string, blobs: seq<Blob>, post: string)
    requires forall b :: b in blobs ==> Printable(b)
    ensures DecodeAll(pre + Stream(blobs) + post, |pre|, |blobs|)
      == Decoded(Contents(blobs), true, |pre + Stream(blobs)|)
    decreases |blobs|
  {
    if blobs == [] {
      assert pre + "" == pre;
    } else {
      assert blobs[0] in blobs;
      var first, rest := Print(blobs[0]), Stream(blobs[1..]);
      DecodePrinted(pre, blobs[0], rest + post);
      BatchRoundTrip(pre + first, blobs[1..], post);
      Regroup(pre, first, rest, post);
      ContentsCons(blobs);
    }
  }

  // ---- Output that announces no blob ------------------------------------------------------------

  /** Words with one space between them. */
  function Spaced(ws: seq<string>): string
    requires ws != []
  {
    if |ws| == 1 then ws[0] else ws[0] + (" " + Spaced(ws[1..]))
  }

  ghost predicate AreWords(ws: seq<string>) {
    ws != [] && forall w :: w in ws ==> w != "" && forall c :: c in w ==> !White(c)
  }

  ghost predicate AllDigits(s: string) {
    forall c :: c in s ==> '0' <= c <= '9'
  }

  /** A header line of these words announces no blob: `<sha> missing`, another kind of object, or no size. */
  ghost predicate NoBlob(ws: seq<string>) {
    |ws| < 3 || ws[1] != "blob" || !AllDigits(ws[2])
  }

  lemma {:induction false} SpacedWords(ws: seq<string>)
    requires AreWords(ws)
    ensures Words(Spaced(ws)) == ws && '\n' !in Spaced(ws)
  {
    assert ws[0] in ws;
    forall c ensures IsSpace(c) <==> White(c) { SpaceIff(c); }
    if |ws| == 1 {
      LastWord(ws[0]);
    } else {
      assert forall w :: w in ws[1..] ==> w in ws;
      SpacedWords(ws[1..]);
      WordBefore(ws[0], Spaced(ws[1..]));
      assert ws == [ws[0]] + ws[1..];
    }
  }

  lemma {:induction false} ParseDecimalIff(s: string)
    ensures ParseDecimal(s).Some? <==> s != "" && AllDigits(s)
    decreases |s|
  {
    if s != "" {
      var front, last := s[..|s| - 1], s[|s| - 1];
      assert s == front + [last];
      ParseDecimalIff(front);
      if AllDigits(s) {
        assert last in s && forall c :: c in front ==> c in s;
      } else {
        assert AllDigits(front) ==> !('0' <= last <= '9');
      }
    }
  }

  lemma NoBlobNoCut(pre: string, ws: seq<string>, post: string)
    requires AreWords(ws) && NoBlob(ws)
    ensures DecodeAt(pre + (Spaced(ws) + ("\n" + post)), |pre|) == None
  {
    hide Spaced, Words;
    var line := Spaced(ws);
    var data := pre + (line + ("\n" + post));
    SpacedWords(ws);
    forall i | |pre| <= i < |pre| + |line| ensures data[i] != '\n' { assert data[i] == line[i - |pre|]; }
    FindAfter(data, |pre|, |line|);
    assert data[|pre|..|pre| + |line|] == line;
    if |ws| >= 3 { ParseDecimalIff(ws[2]); }
  }

  /** Among printed blobs, at any position, such a line ends the decoding there: the blobs before it are
      delivered, nothing after it is, and the loop reports failure. */
  lemma {:induction false} NoBlobStops(pre: string, blobs: seq<Blob>, ws: seq<string>, post: string, n: nat)
    requires (forall b :: b in blobs ==> Printable(b)) && AreWords(ws) && NoBlob(ws) && n > 0
    ensures DecodeAll(pre + Stream(blobs) + (Spaced(ws) + ("\n" + post)), |pre|, |blobs| + n)
      == Decoded(Contents(blobs), false, |pre + Stream(blobs)|)
    decreases |blobs|
  {
    hide Spaced, NoBlob, DecodeAt;
    var line := Spaced(ws) + ("\n" + post);
    if blobs == [] {
      assert pre + "" == pre;
      NoBlobNoCut(pre, ws, post);
    } else {
      assert blobs[0] in blobs;
      var first, rest := Print(blobs[0]), Stream(blobs[1..]);
      DecodePrinted(pre, blobs[0], rest + line);
      NoBlobStops(pre + first, blobs[1..], ws, post, n);
      Regroup(pre, first, rest, line);
      ContentsCons(blobs);
    }
  }

  /** What git prints for an object it does not have. */
  lemma MissingStops(pre: string, blobs: seq<Blob>, sha: string, post: string, n: nat)
    requires (forall b :: b in blobs ==> Printable(b)) && sha != "" && (forall c :: c in sha ==> !White(c)) && n > 0
    ensures DecodeAll(pre + Stream(blobs) + ((sha + " missing") + ("\n" + post)), |pre|, |blobs| + n)
      == Decoded(Contents(blobs), false, |pre + Stream(blobs)|)
  {
    var ws := [sha, "missing"];
    assert ws[1..] == ["missing"] && " " + "missing" == " missing";
    NoBlobStops(pre, blobs, ws, post, n);
  }

  // ---- Output that stops early ------------------------------------------------------------------

  lemma NoHeaderYet(pre: string, b: Blob, k: nat)
    requires Printable(b) && k <= |Header(b)|
    ensures DecodeAt(pre + Header(b)[..k], |pre|) == None
  {
    HeaderHasNoNewline(b);
    var data := pre + Header(b)[..k];
    forall i | |pre| <= i < |data| ensures data[i] != '\n' { assert data[i] == Header(b)[i - |pre|]; }
  }

  lemma PastTheEnd(data: string, idx: nat, n: nat)
    requires idx >= |data| && n > 0
    ensures DecodeAll(data, idx, n) == Decoded([], false, idx)
  {}

  /** One blob whose content, with its closing newline, is followed by `after`, cut `k` characters into
      what follows the header line. */
  lemma CutInside(pre: string, b: Blob, after: string, k: nat)
    requires Printable(b) && k <= |b.content|
    ensures var data := pre + (Header(b) + ("\n" + (b.content + ("\n" + after))[..k]));
      DecodeAt(data, |pre|) == Some(Cut(b.content[..k], |pre| + |Print(b)|)) && |data| < |pre| + |Print(b)|
  {
    hide DecodeAt, Header;
    var body := (b.content + ("\n" + after))[..k];
    assert body == b.content[..k];
    DecodeHeader(pre, b, body);
    assert body[..k] == body;
  }

  lemma StreamCut(b: Blob, rest: string, m: nat)
    requires m <= |Print(b) + rest|
    ensures m <= |Header(b)| ==> (Print(b) + rest)[..m] == Header(b)[..m]
    ensures |Header(b)| < m ==>
      (Print(b) + rest)[..m] == Header(b) + ("\n" + (b.content + ("\n" + rest))[..m - |Header(b)| - 1])
    ensures |Print(b)| <= m ==> (Print(b) + rest)[..m] == Print(b) + rest[..m - |Print(b)|]
  {
    hide Header;
    var h := Header(b);
    assert Print(b) + rest == h + ("\n" + (b.content + ("\n" + rest)));
  }

  /** The contents a decoder gets out of the printed blobs when only `m` characters arrive. */
  function Delivered(blobs: seq<Blob>, m: nat): seq<string> {
    if blobs == [] || m <= |Header(blobs[0])| then []
    else
      var b, k := blobs[0], m - |Header(blobs[0])| - 1;
      if k <= |b.content| then [b.content[..k]] else [b.content] + Delivered(blobs[1..], m - |Print(b)|)
  }

  lemma PrintLength(b: Blob)
    ensures |Print(b)| == |Header(b)| + 1 + |b.content| + 1
  {}

  /** The loop over git's own output, wherever it is cut: it delivers the blobs whose header line
      arrived, the last of them as short as the cut left it. */
  lemma {:induction false} CutStream(pre: string, blobs: seq<Blob>, m: nat)
    requires m <= |Stream(blobs)| && forall b :: b in blobs ==> Printable(b)
    ensures DecodeAll(pre + Stream(blobs)[..m], |pre|, |blobs|).contents == Delivered(blobs, m)
    decreases |blobs|
  {
    hide DecodeAt, Header, Print;
    if blobs != [] {
      var b, rest := blobs[0], Stream(blobs[1..]);
      assert b in blobs;
      var data := pre + Stream(blobs)[..m];
      StreamCut(b, rest, m);
      PrintLength(b);
      if m <= |Header(b)| {
        NoHeaderYet(pre, b, m);
      } else if m <= |Header(b)| + 1 + |b.content| {
        CutInside(pre, b, rest, m - |Header(b)| - 1);
        if |blobs| > 1 { PastTheEnd(data, |pre| + |Print(b)|, |blobs| - 1); }
      } else {
        var post := rest[..m - |Print(b)|];
        DecodePrinted(pre, b, post);
        assert data == pre + Print(b) + post;
        CutStream(pre + Print(b), blobs[1..], m - |Print(b)|);
      }
    }
  }

  lemma {:induction false} LastFits(blobs: seq<Blob>)
    requires blobs != []
    ensures |blobs[|blobs| - 1].content| + 1 < |Stream(blobs)|
    decreases |blobs|
  {
    PrintLength(blobs[0]);
    if |blobs| > 1 { LastFits(blobs[1..]); }
  }

  lemma {:induction false} DeliveredIff(blobs: seq<Blob>, m: nat)
    requires blobs != [] && m <= |Stream(blobs)|
    ensures |Delivered(blobs, m)| <= |blobs|
    ensures |Delivered(blobs, m)| == |blobs| <==> m + |blobs[|blobs| - 1].content| + 1 >= |Stream(blobs)|
    ensures Delivered(blobs, m) == Contents(blobs) <==> m + 1 >= |Stream(blobs)|
    decreases |blobs|
  {
    hide Header, Print;
    var b, rest := blobs[0], blobs[1..];
    PrintLength(b);
    ContentsCons(blobs);
    if rest == [] {
      assert Stream(rest) == "" && Contents(rest) == [] && blobs[|blobs| - 1] == b;
      if |Header(b)| < m {
        var k := m - |Header(b)| - 1;
        assert k <= |b.content| ==> (b.content[..k] == b.content <==> k == |b.content|);
        assert [b.content] + [] == [b.content] == Contents(blobs);
        assert k <= |b.content| ==> ([b.content[..k]] == [b.content] <==> [b.content[..k]][0] == b.content);
      }
    } else {
      assert blobs[|blobs| - 1] == rest[|rest| - 1];
      LastFits(rest);
      if m > |Header(b)| + 1 + |b.content| {
        DeliveredIff(rest, m - |Print(b)|);
        assert Delivered(blobs, m)[1..] == Delivered(rest, m - |Print(b)|) && Contents(blobs)[1..] == Contents(rest);
      }
    }
  }

  /** When a cut goes unnoticed, exactly. The loop accepts the first `m` characters of git's output if
      and only if the last header line arrived; what it accepts is right if and only if all of the output
      arrived, the newline after the last content perhaps excepted. Anything in between is accepted with
      a short last content. */
  lemma CutAcceptedIff(pre: string, blobs: seq<Blob>, m: nat)
    requires blobs != [] && m <= |Stream(blobs)| && forall b :: b in blobs ==> Printable(b)
    ensures var d := DecodeAll(pre + Stream(blobs)[..m], |pre|, |blobs|);
      && (d.complete <==> m + |blobs[|blobs| - 1].content| + 1 >= |Stream(blobs)|)
      && (d.complete && d.contents == Contents(blobs) <==> m + 1 >= |Stream(blobs)|)
  {
    CutStream(pre, blobs, m);
    DeliveredIff(blobs, m);
  }

  // ---- Scan, then write -----------------------------------------------------------------------

  datatype TreeRecord = TreeRecord(mode: string, objectSha: string, path: string)
  datatype File = File(path: string, content: string, executable: bool)

  predicate Declared(path: string, declared: seq<string>) {
    exists d :: d in declared && PathsOverlap(path, d)
  }

  /** No forbidden surface, no symlink, no gitlink, no unknown mode. */
  predicate Extractable(r: TreeRecord, forbidden: seq<string>) {
    (forall f :: f in forbidden ==> !PathsOverlap(r.path, f)) && (r.mode == "100644" || r.mode == "100755")
  }

  function DeclaredRecords(records: seq<TreeRecord>, declared: seq<string>): seq<TreeRecord> {
    Filter(records, (r: TreeRecord) => Declared(r.path, declared))
  }

  function Files(records: seq<TreeRecord>, contents: seq<string>): (fs: seq<File>)
    requires |contents| <= |records|
    ensures |fs| == |contents|
  {
    seq(|contents|, i requires 0 <= i < |contents| => File(records[i].path, contents[i], records[i].mode == "100755"))
  }

  method OverlapsAny(path: string, surfaces: seq<string>) returns (hit: bool)
    ensures hit <==> exists f :: f in surfaces && PathsOverlap(path, f)
  {
    for j := 0 to |surfaces|
      invariant forall f :: f in surfaces[..j] ==> !PathsOverlap(path, f)
    {
      if PathsOverlap(path, surfaces[j]) {
        return true;
      }
      assert surfaces[..j + 1] == surfaces[..j] + [surfaces[j]];
    }
    assert surfaces[..|surfaces|] == surfaces;
    hit := false;
  }

  lemma DeclaredGrow(records: seq<TreeRecord>, declared: seq<string>, i: nat)
    requires i < |records|
    ensures DeclaredRecords(records[..i + 1], declared)
      == DeclaredRecords(records[..i], declared) + if Declared(records[i].path, declared) then [records[i]] else []
    ensures forall r :: r in records[..i + 1] <==> r in records[..i] || r == records[i]
  {
    assert records[..i + 1] == records[..i] + [records[i]];
    FilterAppend(records[..i], [records[i]], (r: TreeRecord) => Declared(r.path, declared));
    assert [records[i]][1..] == [];
  }

  method Judge(record: TreeRecord, forbidden: seq<string>) returns (extractable: bool)
    ensures extractable <==> Extractable(record, forbidden)
  {
    var forbiddenHere := OverlapsAny(record.path, forbidden);
    if forbiddenHere {
      return false;
    }
    if record.mode == "120000" || record.mode == "160000" {
      return false;
    }
    extractable := record.mode == "100644" || record.mode == "100755";
  }

  /** The scan loop: every record is judged before anything is written. */
  method Scan(records: seq<TreeRecord>, declared: seq<string>, forbidden: seq<string>)
    returns (selected: Outcome<seq<TreeRecord>>)
    ensures selected.Refused? <==> exists r :: r in records && Declared(r.path, declared) && !Extractable(r, forbidden)
    ensures selected.Resolved? ==> selected.value == DeclaredRecords(records, declared)
  {
    hide PathsOverlap, Extractable;
    var kept := [];
    for i := 0 to |records|
      invariant kept == DeclaredRecords(records[..i], declared)
      invariant forall r :: r in DeclaredRecords(records[..i], declared) ==> Extractable(r, forbidden)
    {
      DeclaredGrow(records, declared, i);
      var declaredHere := OverlapsAny(records[i].path, declared);
      if !declaredHere {
        continue;
      }
      var extractable := Judge(records[i], forbidden);
      if !extractable {
        return Refused;
      }
      kept := kept + [records[i]];
    }
    assert records[..|records|] == records;
    selected := Resolved(kept);
  }

  function Resume(done: seq<string>, rest: Decoded): Decoded {
    Decoded(done + rest.contents, rest.complete, rest.end)
  }

  lemma ResumeStep(data: string, idx: nat, n: nat, done: seq<string>)
    requires n > 0
    ensures Resume(done, DecodeAll(data, idx, n)) ==
      match DecodeAt(data, idx)
      case None => Decoded(done, false, idx)
      case Some(cut) => Resume(done + [cut.content], DecodeAll(data, cut.next, n - 1))
  {
    if DecodeAt(data, idx).Some? {
      var cut := DecodeAt(data, idx).value;
      var rest := DecodeAll(data, cut.next, n - 1);
      assert done + ([cut.content] + rest.contents) == done + [cut.content] + rest.contents;
    } else {
      assert done + [] == done;
    }
  }

  lemma FilesStep(records: seq<TreeRecord>, done: seq<string>, content: string)
    requires |done| < |records|
    ensures Files(records, done + [content]) == Files(records, done)
      + [File(records[|done|].path, content, records[|done|].mode == "100755")]
  {}

  lemma DecodeNothing(data: string, idx: nat, done: seq<string>)
    ensures Resume(done, DecodeAll(data, idx, 0)) == Decoded(done, true, idx)
  {
    assert done + [] == done;
  }

  /** The write loop over the batch output. */
  method WriteAll(selected: seq<TreeRecord>, data: string) returns (complete: bool, written: seq<File>)
    ensures complete == DecodeAll(data, 0, |selected|).complete
    ensures written == Files(selected, DecodeAll(data, 0, |selected|).contents)
  {
    hide DecodeAll, DecodeAt;
    written := [];
    var idx := 0;
    ghost var done, all := [], DecodeAll(data, 0, |selected|);
    assert all == Resume([], all);
    for i := 0 to |selected|
      invariant |done| == i && written == Files(selected, done)
      invariant all == Resume(done, DecodeAll(data, idx, |selected| - i))
    {
      ResumeStep(data, idx, |selected| - i, done);
      var cut := DecodeAt(data, idx);
      if cut.None? {
        return false, written;
      }
      FilesStep(selected, done, cut.value.content);
      written := written + [File(selected[i].path, cut.value.content, selected[i].mode == "100755")];
      idx, done := cut.value.next, done + [cut.value.content];
    }
    DecodeNothing(data, idx, done);
    complete := true;
  }

  function RecordPaths(records: seq<TreeRecord>): seq<string> {
    seq(|records|, i requires 0 <= i < |records| => records[i].path)
  }

  /** What is reported, and which files have been written by then. */
  datatype Extraction = Extraction(copied: Outcome<seq<string>>, written: seq<File>)

  ghost predicate AllExtractable(records: seq<TreeRecord>, declared: seq<string>, forbidden: seq<string>) {
    forall r :: r in records && Declared(r.path, declared) ==> Extractable(r, forbidden)
  }

  ghost function Extracted(records: seq<TreeRecord>, declared: seq<string>, forbidden: seq<string>, data: string): Extraction {
    if !AllExtractable(records, declared, forbidden) then Extraction(Refused, [])
    else
      var selected := DeclaredRecords(records, declared);
      var decoded := DecodeAll(data, 0, |selected|);
      Extraction(if decoded.complete then Resolved(RecordPaths(selected)) else Refused, Files(selected, decoded.contents))
  }

  /** `extract_git_commit_tree_snapshot` from the parsed tree records and the batch output on. A refused
      tree record means no file at all; a broken batch output leaves the files before the break. */
  method Extract(records: seq<TreeRecord>, declared: seq<string>, forbidden: seq<string>, data: string)
    returns (copied: Outcome<seq<string>>, written: seq<File>)
    ensures (exists r :: r in records && Declared(r.path, declared) && !Extractable(r, forbidden)) ==>
      copied.Refused? && written == []
    ensures Extraction(copied, written) == Extracted(records, declared, forbidden, data)
  {
    var scan := Scan(records, declared, forbidden);
    if scan.Refused? {
      return Refused, [];
    }
    var complete, files := WriteAll(scan.value, data);
    written := files;
    copied := if complete then Resolved(RecordPaths(scan.value)) else Refused;
  }

  /** The files extraction ought to write. */
  function Intended(selected: seq<TreeRecord>, blobs: seq<Blob>): seq<File>
    requires |blobs| == |selected|
  {
    seq(|selected|, i requires 0 <= i < |selected| => File(selected[i].path, blobs[i].content, selected[i].mode == "100755"))
  }

  lemma IntendedIff(selected: seq<TreeRecord>, blobs: seq<Blob>, contents: seq<string>)
    requires |blobs| == |selected| && |contents| <= |selected|
    ensures Files(selected, contents) == Intended(selected, blobs) <==> contents == Contents(blobs)
  {
    if Files(selected, contents) == Intended(selected, blobs) {
      assert |contents| == |selected|;
      forall i | 0 <= i < |contents| ensures contents[i] == Contents(blobs)[i] {
        assert Files(selected, contents)[i] == Intended(selected, blobs)[i];
      }
    }
  }

  /** End to end: when git prints the blobs of the declared records, extraction writes exactly those
      records' paths, contents and executable bits, and reports their paths. */
  lemma ExtractionFaithful(records: seq<TreeRecord>, declared: seq<string>, forbidden: seq<string>, blobs: seq<Blob>)
    requires |blobs| == |DeclaredRecords(records, declared)| && forall b :: b in blobs ==> Printable(b)
    requires AllExtractable(records, declared, forbidden)
    ensures var selected := DeclaredRecords(records, declared);
      var x := Extracted(records, declared, forbidden, Stream(blobs));
      && x.written == Intended(selected, blobs)
      && x.copied.Resolved? && |x.copied.value| == |selected| && forall i :: 0 <= i < |selected| ==> x.copied.value[i] == selected[i].path
  {
    hide DecodeAll, Declared, Extractable;
    BatchRoundTrip("", blobs, "");
    assert "" + Stream(blobs) + "" == Stream(blobs);
    IntendedIff(DeclaredRecords(records, declared), blobs, Contents(blobs));
  }

  /** End to end with git's output cut after `m` characters: extraction reports success if and only if
      the last header line arrived, but the files are the declared ones if and only if the whole output
      did, its last newline perhaps excepted. */
  lemma ExtractionCutIff(records: seq<TreeRecord>, declared: seq<string>, forbidden: seq<string>, blobs: seq<Blob>, m: nat)
    requires |blobs| == |DeclaredRecords(records, declared)| && forall b :: b in blobs ==> Printable(b)
    requires blobs != [] && m <= |Stream(blobs)| && AllExtractable(records, declared, forbidden)
    ensures var x := Extracted(records, declared, forbidden, Stream(blobs)[..m]);
      && (x.copied.Resolved? <==> m + |blobs[|blobs| - 1].content| + 1 >= |Stream(blobs)|)
      && (x.copied.Resolved? && x.written == Intended(DeclaredRecords(records, declared), blobs) <==> m + 1 >= |Stream(blobs)|)
  {
    hide DecodeAll, Declared, Extractable;
    CutAcceptedIff("", blobs, m);
    assert "" + Stream(blobs)[..m] == Stream(blobs)[..m];
    var selected := DeclaredRecords(records, declared);
    IntendedIff(selected, blobs, DecodeAll(Stream(blobs)[..m], 0, |selected|).contents);
  }
}
