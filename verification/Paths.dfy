/** Absolute POSIX paths as the topology resolver handles them: plain strings, a textual
    containment test, and the lexical normalisation of `os.path.normpath`. The lemmas connect
    the textual view with the list of components a path walk visits. */
module Paths {

  /** `s.rstrip("/")` */
  function RStrip(s: string): (r: string)
    ensures r <= s
    ensures r == "" || r[|r| - 1] != '/'
    ensures forall i :: |r| <= i < |s| ==> s[i] == '/'
  {
    if s != "" && s[|s| - 1] == '/' then RStrip(s[..|s| - 1]) else s
  }

  /** `_within_v2`: containment of one path in another, on their text. */
  predicate Within(candidate: string, ancestor: string) {
    candidate == ancestor || RStrip(ancestor) + "/" <= candidate
  }

  /** `s.split("/")` */
  function Split(s: string): (parts: seq<string>)
    ensures |parts| >= 1
    ensures forall part :: part in parts ==> '/' !in part
  {
    if s == "" then
      [""]
    else
      var rest := Split(s[1..]);
      if s[0] == '/' then [""] + rest else [[s[0]] + rest[0]] + rest[1..]
  }

  function NonEmpty(parts: seq<string>): seq<string> {
    if parts == [] then []
    else if parts[0] == "" then NonEmpty(parts[1..])
    else [parts[0]] + NonEmpty(parts[1..])
  }

  /** The components a walk over `path` visits. */
  function Components(path: string): seq<string> {
    NonEmpty(Split(path))
  }

  /** A component that normalisation leaves alone. */
  predicate Clean(c: string) {
    c != "" && c != "." && c != ".." && '/' !in c
  }

  predicate AllClean(cs: seq<string>) {
    forall c :: c in cs ==> Clean(c)
  }

  /** Each component preceded by a slash: the `prefix` string a walk accumulates. */
  function Slashed(cs: seq<string>): string {
    if cs == [] then "" else "/" + cs[0] + Slashed(cs[1..])
  }

  /** The canonical absolute path with these components. */
  function Render(cs: seq<string>): string {
    if cs == [] then "/" else Slashed(cs)
  }

  predicate CanonicalPath(s: string) {
    AllClean(Components(s)) && s == Render(Components(s))
  }

  /** POSIX keeps exactly two leading slashes apart from one (IEEE Std 1003.1, section 4.13). */
  predicate DoubleSlash(s: string) {
    "//" <= s && !("///" <= s)
  }

  /** The component loop of `normpath` on an absolute path. */
  function Collapse(parts: seq<string>, stack: seq<string>): seq<string> {
    if parts == [] then stack
    else
      var part := parts[0];
      var next :=
        if part == "" || part == "." then stack
        else if part != ".." then stack + [part]
        else if stack == [] then stack
        else stack[..|stack| - 1];
      Collapse(parts[1..], next)
  }

  function Rooted(path: string): string {
    if "/" <= path then path else "/" + path
  }

  /** `_normalize_absolute_v2` */
  function Normalize(path: string): string {
    var p := Rooted(path);
    var text := Render(Collapse(Split(p), []));
    if DoubleSlash(p) then "/" + text else text
  }

  // ---- Containment as an order -------------------------------------------------------------

  lemma StrippedPrefix(b: string, c: string)
    requires RStrip(c) + "/" <= b
    ensures RStrip(c) == RStrip(b) || RStrip(c) + "/" <= RStrip(b)
  {
    var rb, rc := RStrip(b), RStrip(c);
    assert forall i :: 0 <= i < |rc| ==> rc[i] == (rc + "/")[i] == b[i];
    if |rc| < |rb| {
      assert (rc + "/") == b[..|rc| + 1] == rb[..|rc| + 1];
    } else if |rc| > |rb| {
      assert false;
    }
  }

  /** Two texts that differ in their trailing slashes only. */
  lemma SameStem(a: string, b: string)
    requires RStrip(a) == RStrip(b)
    ensures Within(a, b) || Within(b, a)
  {
    var r := RStrip(a);
    if |a| == |b| {
      assert a == b;
    } else if |a| < |b| {
      assert r + "/" == b[..|r| + 1];
    } else {
      assert r + "/" == a[..|r| + 1];
    }
  }

  /** Containment is transitive on every string, canonical or not. */
  lemma WithinTransitive(a: string, b: string, c: string)
    requires Within(a, b) && Within(b, c)
    ensures Within(a, c)
  {
    if a != b && b != c {
      StrippedPrefix(b, c);
    }
  }

  /** What lies within two ancestors: one of them lies within the other. */
  lemma WithinComparable(r: string, a: string, b: string)
    requires Within(r, a) && Within(r, b)
    ensures Within(a, b) || Within(b, a)
  {
    var ra, rb := RStrip(a), RStrip(b);
    if r != a && r != b {
      if |ra| < |rb| {
        assert rb == r[..|rb|] && ra + "/" == r[..|ra| + 1];
        assert ra + "/" == rb[..|ra| + 1] == b[..|ra| + 1];
      } else if |rb| < |ra| {
        assert ra == r[..|ra|] && rb + "/" == r[..|rb| + 1];
        assert rb + "/" == ra[..|rb| + 1] == a[..|rb| + 1];
      } else {
        assert ra == r[..|ra|] == rb;
        SameStem(a, b);
      }
    }
  }

  // ---- Text and components -----------------------------------------------------------------

  lemma {:induction false} SlashedAppend(a: seq<string>, b: seq<string>)
    ensures Slashed(a + b) == Slashed(a) + Slashed(b)
  {
    if a == [] {
      assert a + b == b;
    } else {
      SlashedAppend(a[1..], b);
      assert (a + b)[1..] == a[1..] + b;
    }
  }

  lemma SlashedExtend(cs: seq<string>, k: nat)
    requires k < |cs|
    ensures Slashed(cs[..k + 1]) == Slashed(cs[..k]) + "/" + cs[k]
  {
    SlashedAppend(cs[..k], [cs[k]]);
    assert cs[..k + 1] == cs[..k] + [cs[k]];
    assert [cs[k]][1..] == [];
  }

  lemma SlashedLast(front: seq<string>, c: string)
    ensures Slashed(front + [c]) == Slashed(front) + ("/" + c)
  {
    SlashedExtend(front + [c], |front|);
    assert (front + [c])[..|front|] == front && (front + [c])[..|front| + 1] == front + [c];
  }

  /** How one more leading character changes a split. */
  function PushChar(c: char, parts: seq<string>): seq<string>
    requires parts != []
  {
    if c == '/' then [""] + parts else [[c] + parts[0]] + parts[1..]
  }

  lemma PushCharAppend(c: char, a: seq<string>, b: seq<string>)
    requires a != []
    ensures PushChar(c, a + b) == PushChar(c, a) + b
  {
    assert (a + b)[1..] == a[1..] + b;
  }

  lemma SplitStep(c: char, s: string)
    ensures Split([c] + s) == PushChar(c, Split(s))
  {
    assert ([c] + s)[1..] == s;
  }

  /** A slash splits: the parts before it, then the parts after it. */
  lemma {:induction false} SplitAt(a: string, b: string)
    ensures Split(a + ("/" + b)) == Split(a) + Split(b)
  {
    if a == "" {
      assert a + ("/" + b) == ['/'] + b;
      SplitStep('/', b);
    } else {
      var rest := a[1..];
      SplitAt(rest, b);
      assert a + ("/" + b) == [a[0]] + (rest + ("/" + b));
      assert a == [a[0]] + rest;
      SplitStep(a[0], rest + ("/" + b));
      SplitStep(a[0], rest);
      PushCharAppend(a[0], Split(rest), Split(b));
    }
  }

  lemma {:induction false} SplitComponent(c: string, s: string)
    requires '/' !in c
    ensures Split(c + s) == [c + Split(s)[0]] + Split(s)[1..]
  {
    if c == "" {
      var parts := Split(s);
      assert c + s == s && c + parts[0] == parts[0];
      assert [parts[0]] + parts[1..] == parts;
    } else {
      SplitComponent(c[1..], s);
      assert (c + s)[1..] == c[1..] + s;
      var rest := Split(c[1..] + s);
      assert [c[0]] + (c[1..] + Split(s)[0]) == c + Split(s)[0];
      assert [[c[0]] + rest[0]] + rest[1..] == [c + Split(s)[0]] + Split(s)[1..];
    }
  }

  lemma SplitNothing()
    ensures Split("") == [""]
  {}

  lemma {:induction false} SplitSlashed(cs: seq<string>)
    requires forall c :: c in cs ==> '/' !in c
    ensures Split(Slashed(cs)) == [""] + cs
  {
    hide Split;
    if cs != [] {
      var c, rest := cs[0], cs[1..];
      SplitSlashed(rest);
      SplitComponent(c, Slashed(rest));
      SplitStep('/', c + Slashed(rest));
      assert Slashed(cs) == ['/'] + (c + Slashed(rest));
      assert c + "" == c && [c] + ([""] + rest)[1..] == cs;
    } else {
      SplitNothing();
    }
  }

  lemma {:induction false} NonEmptyIdentity(cs: seq<string>)
    requires "" !in cs
    ensures NonEmpty(cs) == cs
  {
    if cs != [] {
      assert cs[0] in cs;
      NonEmptyIdentity(cs[1..]);
      assert cs == [cs[0]] + cs[1..];
    }
  }

  lemma ComponentsOfRender(cs: seq<string>)
    requires AllClean(cs)
    ensures Components(Render(cs)) == cs
    ensures Components("/" + Render(cs)) == cs
    ensures CanonicalPath(Render(cs))
  {
    NonEmptyIdentity(cs);
    var s := Render(cs);
    if cs == [] {
      assert Split("") == [""];
      assert Split("/") == ["", ""];
    } else {
      SplitSlashed(cs);
      assert ([""] + cs)[1..] == cs;
    }
    assert ("/" + s)[1..] == s;
    assert ([""] + Split(s))[1..] == Split(s);
  }

  lemma {:induction false} CollapseClean(parts: seq<string>, stack: seq<string>)
    requires AllClean(stack) && forall p :: p in parts ==> '/' !in p
    ensures AllClean(Collapse(parts, stack))
  {
    if parts != [] {
      assert parts[0] in parts;
      var part := parts[0];
      var next :=
        if part == "" || part == "." then stack
        else if part != ".." then stack + [part]
        else if stack == [] then stack
        else stack[..|stack| - 1];
      CollapseClean(parts[1..], next);
    }
  }

  lemma {:induction false} CollapseIdentity(cs: seq<string>, stack: seq<string>)
    requires AllClean(cs)
    ensures Collapse(cs, stack) == stack + cs
  {
    if cs != [] {
      assert Clean(cs[0]);
      CollapseIdentity(cs[1..], stack + [cs[0]]);
      assert stack + cs == stack + [cs[0]] + cs[1..];
    }
  }

  /** What normalisation returns: one leading slash (two when POSIX asks for them), then clean components. */
  lemma NormalizeShape(path: string) returns (cs: seq<string>)
    ensures AllClean(cs)
    ensures Components(Normalize(path)) == cs
    ensures Normalize(path) == if DoubleSlash(Rooted(path)) then "/" + Render(cs) else Render(cs)
  {
    cs := Collapse(Split(Rooted(path)), []);
    CollapseClean(Split(Rooted(path)), []);
    ComponentsOfRender(cs);
  }

  lemma EmptyRender()
    ensures Render([]) == "/"
  {}

  lemma RenderIsSingleSlash(cs: seq<string>)
    requires AllClean(cs)
    ensures "/" <= Render(cs) && !DoubleSlash(Render(cs))
  {
    if cs != [] {
      assert Clean(cs[0]);
      assert Slashed(cs)[1] == cs[0][0];
    }
  }

  lemma NormalizeRender(cs: seq<string>)
    requires AllClean(cs)
    ensures Normalize(Render(cs)) == Render(cs)
  {
    RenderIsSingleSlash(cs);
    if cs == [] {
      assert Split("/") == ["", ""] by { assert "/"[1..] == "" && Split("") == [""]; }
      assert ["", ""][1..] == [""] && [""][1..] == [];
      assert Collapse([], []) == [];
      assert Collapse([""], []) == [];
    } else {
      SplitSlashed(cs);
      CollapseIdentity(cs, []);
      assert ([""] + cs)[1..] == cs && [] + cs == cs;
    }
  }

  /** Canonical paths are exactly the fixed points of normalisation with a single leading slash. */
  lemma CanonicalIffFixed(s: string)
    ensures CanonicalPath(s) <==> Normalize(s) == s && !DoubleSlash(s)
  {
    if CanonicalPath(s) {
      NormalizeRender(Components(s));
      RenderIsSingleSlash(Components(s));
    } else if Normalize(s) == s && !DoubleSlash(s) {
      var cs := NormalizeShape(s);
    }
  }

  /** A normalised path is canonical unless it kept a double slash. */
  lemma NormalizeCanonical(path: string)
    ensures !DoubleSlash(Normalize(path)) <==> !DoubleSlash(Rooted(path))
    ensures !DoubleSlash(Rooted(path)) ==> CanonicalPath(Normalize(path))
  {
    var cs := NormalizeShape(path);
    RenderIsSingleSlash(cs);
    ComponentsOfRender(cs);
    if DoubleSlash(Rooted(path)) {
      var text := "/" + Render(cs);
      assert text[..2] == "//";
      if cs != [] {
        assert Clean(cs[0]);
        assert text[2] == Render(cs)[1] == cs[0][0];
      }
    }
  }

  lemma {:induction false} SlashedEndsClean(cs: seq<string>)
    requires AllClean(cs)
    ensures RStrip(Render(cs)) == Slashed(cs)
  {
    if cs == [] {
      assert RStrip("/") == RStrip("/"[..0]) == RStrip("");
    } else {
      var last := cs[|cs| - 1];
      SlashedExtend(cs, |cs| - 1);
      assert cs[..|cs|] == cs;
      assert last in cs;
      var s := Slashed(cs);
      assert s[|s| - 1] == last[|last| - 1];
    }
  }

  lemma SlashesStrip()
    ensures RStrip("/") == "" && RStrip("//") == "" && "/" + Render([]) == "//"
  {
    assert "//"[..1] == "/" && "/"[..0] == "";
    assert RStrip("//") == RStrip("//"[..1]) && RStrip("/") == RStrip("/"[..0]);
  }

  lemma StripDouble(cs: seq<string>)
    requires AllClean(cs) && cs != []
    ensures RStrip("/" + Slashed(cs)) == "/" + Slashed(cs)
  {
    var n := |cs| - 1;
    assert cs[..n] + [cs[n]] == cs && Clean(cs[n]);
    SlashedLast(cs[..n], cs[n]);
    var p := "/" + Slashed(cs);
    assert p[|p| - 1] == cs[n][|cs[n]| - 1];
  }

  /** Equal text up to the next slash means equal first component. */
  lemma SameHead(c: string, x: string, e: string, y: string)
    requires '/' !in c && '/' !in e
    requires x == "" || x[0] == '/'
    requires y != "" && y[0] == '/'
    requires e + y <= c + x
    ensures c == e && y <= x
  {
    var s := c + x;
    assert s[|e|] == (e + y)[|e|] == '/';
    assert forall i :: 0 <= i < |c| ==> s[i] == c[i];
    assert forall i :: 0 <= i < |e| ==> s[i] == (e + y)[i] == e[i];
    assert |c| < |s| ==> s[|c|] == x[0];
    if |c| > |e| {
      assert false;
    } else if |c| < |e| {
      assert false;
    }
    assert c == s[..|c|] == (e + y)[..|e|] == e;
    assert x == s[|c|..];
    assert y == (e + y)[|e|..];
  }

  lemma {:induction false} SlashedPrefix(p: seq<string>, q: seq<string>)
    requires AllClean(p) && AllClean(q)
    requires Slashed(q) + "/" <= Slashed(p)
    ensures q <= p
  {
    if q != [] {
      assert p != [];
      assert Clean(p[0]) && Clean(q[0]);
      assert Slashed(p)[1..] == p[0] + Slashed(p[1..]);
      assert (Slashed(q) + "/")[1..] == q[0] + (Slashed(q[1..]) + "/");
      SameHead(p[0], Slashed(p[1..]), q[0], Slashed(q[1..]) + "/");
      SlashedPrefix(p[1..], q[1..]);
      assert p == [p[0]] + p[1..];
      assert q == [q[0]] + q[1..];
    }
  }

  /** On canonical paths the textual test is the component order: an ancestor is a prefix. */
  lemma WithinIsPrefix(p: seq<string>, q: seq<string>)
    requires AllClean(p) && AllClean(q)
    ensures Within(Render(p), Render(q)) <==> q <= p
  {
    SlashedEndsClean(q);
    if q <= p {
      var r := p[|q|..];
      assert p == q + r;
      SlashedAppend(q, r);
      if r != [] {
        assert Slashed(q) + "/" <= Slashed(q) + Slashed(r);
      } else {
        assert p == q;
      }
    }
    if Within(Render(p), Render(q)) {
      if Render(p) == Render(q) {
        ComponentsOfRender(p);
        ComponentsOfRender(q);
      } else if p != [] {
        SlashedPrefix(p, q);
      }
    }
  }

  // ---- Joining a root and a remainder ---------------------------------------------------------

  lemma NormalizeBy(text: string, parts: seq<string>)
    requires "/" <= text && !DoubleSlash(text) && Split(text) == parts
    ensures Normalize(text) == Render(Collapse(parts, []))
  {}

  lemma {:induction false} CollapseAppend(a: seq<string>, b: seq<string>, stack: seq<string>)
    requires AllClean(a)
    ensures Collapse(a + b, stack) == Collapse(b, stack + a)
  {
    if a == [] {
      assert a + b == b && stack + a == stack;
    } else {
      assert Clean(a[0]) && (a + b)[1..] == a[1..] + b;
      CollapseAppend(a[1..], b, stack + [a[0]]);
      assert stack + [a[0]] + a[1..] == stack + a;
    }
  }

  lemma CollapseRendered(cs: seq<string>, stack: seq<string>)
    requires AllClean(cs)
    ensures Collapse(Split(Render(cs)), stack) == stack + cs
  {
    if cs == [] {
      assert "/"[1..] == "" && Split("") == [""];
      assert Split("/") == ["", ""] && ["", ""][1..] == [""] && [""][1..] == [];
      assert Collapse([], stack) == stack && Collapse([""], stack) == stack;
      assert stack + cs == stack;
    } else {
      SplitSlashed(cs);
      assert ([""] + cs)[1..] == cs;
      CollapseIdentity(cs, stack);
    }
  }

  lemma SlashedStart(cs: seq<string>)
    requires AllClean(cs) && cs != []
    ensures |Slashed(cs)| > 1 && Slashed(cs)[0] == '/' && Slashed(cs)[1] != '/'
  {
    assert Clean(cs[0]);
    assert Slashed(cs)[1] == cs[0][0];
  }

  lemma CollapseJoined(rs: seq<string>, cs: seq<string>)
    requires AllClean(rs) && AllClean(cs)
    ensures Collapse([""] + rs + Split(Render(cs)), []) == rs + cs
  {
    var tail := Split(Render(cs));
    assert ([""] + rs + tail)[1..] == rs + tail;
    CollapseAppend(rs, tail, []);
    assert [] + rs == rs;
    CollapseRendered(cs, rs);
  }

  /** A doubled slash between two paths collapses. */
  lemma DoubledJoin(rs: seq<string>, cs: seq<string>)
    requires AllClean(rs) && AllClean(cs) && rs != []
    ensures Normalize(Slashed(rs) + ("/" + Render(cs))) == Render(rs + cs)
  {
    var head, rest := Slashed(rs), "/" + Render(cs);
    SplitAt(head, Render(cs));
    SplitSlashed(rs);
    SlashedStart(rs);
    var text := head + rest;
    assert text[0] == head[0] && text[1] == head[1];
    assert "/" <= text && !DoubleSlash(text);
    NormalizeBy(text, [""] + rs + Split(Render(cs)));
    CollapseJoined(rs, cs);
  }

  lemma DoubleIsDouble(cs: seq<string>)
    requires AllClean(cs)
    ensures DoubleSlash("/" + Render(cs)) && Rooted("/" + Render(cs)) == "/" + Render(cs)
  {
    RenderIsSingleSlash(cs);
    var text := "/" + Render(cs);
    assert text[..2] == "//";
    if cs != [] {
      SlashedStart(cs);
      assert text[2] == Render(cs)[1];
    }
  }

  /** Two leading slashes before clean components are a normal form. */
  lemma NormalizeDouble(cs: seq<string>)
    requires AllClean(cs)
    ensures Normalize("/" + Render(cs)) == "/" + Render(cs)
  {
    var text := "/" + Render(cs);
    DoubleIsDouble(cs);
    assert text[1..] == Render(cs);
    assert ([""] + Split(Render(cs)))[1..] == Split(Render(cs));
    CollapseRendered(cs, []);
    assert [] + cs == cs;
  }

  /** Normalising twice is normalising once, for every path. */
  lemma NormalizeIdempotent(path: string)
    ensures Normalize(Normalize(path)) == Normalize(path)
    ensures Components(Normalize(Normalize(path))) == Components(Normalize(path))
    ensures DoubleSlash(Rooted(Normalize(path))) <==> DoubleSlash(Rooted(path))
  {
    var cs := NormalizeShape(path);
    NormalizeCanonical(path);
    RenderIsSingleSlash(cs);
    if DoubleSlash(Rooted(path)) {
      NormalizeDouble(cs);
      DoubleIsDouble(cs);
    } else {
      NormalizeRender(cs);
    }
  }

  // ---- Normalisation as rewriting ---------------------------------------------------------------

  lemma {:induction false} CollapseBoth(a: seq<string>, b: seq<string>, stack: seq<string>)
    ensures Collapse(a + b, stack) == Collapse(b, Collapse(a, stack))
  {
    if a == [] {
      assert a + b == b;
    } else {
      var part := a[0];
      var next :=
        if part == "" || part == "." then stack
        else if part != ".." then stack + [part]
        else if stack == [] then stack
        else stack[..|stack| - 1];
      assert (a + b)[1..] == a[1..] + b;
      CollapseBoth(a[1..], b, next);
    }
  }

  lemma CollapseFirst(x: string, b: seq<string>, stack: seq<string>)
    ensures x == "" || x == "." ==> Collapse([x] + b, stack) == Collapse(b, stack)
    ensures x == ".." && stack == [] ==> Collapse([x] + b, stack) == Collapse(b, stack)
    ensures Clean(x) ==> Collapse([x, ".."] + b, stack) == Collapse(b, stack)
  {
    assert ([x] + b)[1..] == b;
    var two := [x, ".."] + b;
    assert two[1..] == [".."] + b && two[1..][1..] == b;
    assert (stack + [x])[..|stack|] == stack;
  }

  lemma NormalizeCollapses(path: string) returns (cs: seq<string>)
    ensures cs == Components(Normalize(path)) == Collapse(Split(Rooted(path)), [])
  {
    cs := Collapse(Split(Rooted(path)), []);
    CollapseClean(Split(Rooted(path)), []);
    ComponentsOfRender(cs);
  }

  lemma ComponentsCollapse(parts: seq<string>)
    requires forall p :: p in parts ==> '/' !in p
    ensures Components(Normalize(Slashed(parts))) == Collapse(parts, [])
  {
    hide Components, Normalize;
    var text := Slashed(parts);
    var cs := NormalizeCollapses(text);
    if parts == [] {
      SplitAt("", "");
      assert "" + ("/" + "") == "/" && Split("") == [""];
      CollapseFirst("", [""], []);
      CollapseFirst("", [], []);
      assert [""] + [""] == Split("/") && [""] + [] == [""];
    } else {
      SplitSlashed(parts);
      CollapseFirst("", parts, []);
    }
  }

  /** Normalisation as rewriting: an empty component and a `.` vanish, a `..` takes the component before
      it along, and at the root there is nothing to take. On clean components nothing applies any more. */
  lemma NormalizeRewrites(a: seq<string>, c: string, b: seq<string>)
    requires (forall p :: p in a + b ==> '/' !in p) && Clean(c)
    ensures Components(Normalize(Slashed(a + [""] + b))) == Components(Normalize(Slashed(a + b)))
    ensures Components(Normalize(Slashed(a + ["."] + b))) == Components(Normalize(Slashed(a + b)))
    ensures Components(Normalize(Slashed(a + [c, ".."] + b))) == Components(Normalize(Slashed(a + b)))
    ensures Components(Normalize(Slashed([".."] + b))) == Components(Normalize(Slashed(b)))
    ensures AllClean(a) ==> Components(Normalize(Slashed(a))) == a
  {
    hide Components, Normalize, Slashed, Collapse;
    var stack := Collapse(a, []);
    forall x: seq<string> ensures Collapse(a + x + b, []) == Collapse(x + b, stack) {
      CollapseBoth(a, x + b, []);
      assert a + x + b == a + (x + b);
    }
    CollapseBoth(a, b, []);
    CollapseFirst("", b, stack);
    CollapseFirst(".", b, stack);
    CollapseFirst(c, b, stack);
    CollapseFirst("..", b, []);
    forall p | p in a + [""] + b || p in a + ["."] + b || p in a + [c, ".."] + b || p in [".."] + b || p in b || p in a ensures '/' !in p {
      assert p in a + b || p == "" || p == "." || p == ".." || p == c;
    }
    ComponentsCollapse(a);
    ComponentsCollapse(b);
    ComponentsCollapse(a + b);
    ComponentsCollapse(a + [""] + b);
    ComponentsCollapse(a + ["."] + b);
    ComponentsCollapse(a + [c, ".."] + b);
    ComponentsCollapse([".."] + b);
    if AllClean(a) { CollapseIdentity(a, []); assert [] + a == a; }
  }

  /** A normalised path is its components, each behind a slash, with a second leading slash kept when there
      were exactly two. */
  lemma NormalizeText(path: string)
    ensures AllClean(Components(Normalize(path)))
    ensures Normalize(path) == (if "//" <= path && !("///" <= path) then "/" else "") + Render(Components(Normalize(path)))
    ensures !("/" <= path) ==> Normalize(path) == Normalize("/" + path)
  {
    var cs := NormalizeShape(path);
    if !("/" <= path) {
      assert path != "" ==> ("/" + path)[1] == path[0] != '/';
    }
    assert "" + Render(cs) == Render(cs);
  }
}
