/** Where a path lands inside its governing mount's filesystem: confined to the mount's root and
    injective for single-slash paths, whatever the root; and, for paths that keep two slashes, exactly
    when the answer is refused and exactly when it is the right one. */
module MountProjection {
  import opened Outcomes
  import opened Paths
  import opened MountTable
  import opened MountTrail
  import opened MountLocality
  import opened MountAnswers

  // ---- Single-slash paths, any root ------------------------------------------------------------

  /** The root is nothing but slashes, or normalisation leaves it alone up to trailing slashes. */
  predicate SteadyRoot(root: string) {
    RStrip(root) == "" || Normalize(RStrip(root)) == RStrip(root)
  }

  /** Where the components below the mount point belong. */
  function Landing(below: seq<string>, g: MountRecord): Outcome<Location> {
    if below == [] then Resolved(Location(g.device, g.root))
    else if SteadyRoot(g.root) then Resolved(Location(g.device, RStrip(g.root) + Slashed(below)))
    else Refused
  }

  lemma {:induction false} SlashedCut(cs: seq<string>, r: string) returns (k: nat)
    requires AllClean(cs) && r != "" && r + "/" <= Slashed(cs)
    ensures 0 < k <= |cs| && r == Slashed(cs[..k])
    decreases |cs|
  {
    var c, rest := cs[0], Slashed(cs[1..]);
    assert Clean(c) && Slashed(cs) == "/" + c + rest;
    assert (r + "/")[|r|] == '/' && Slashed(cs)[|r|] == '/';
    assert forall i :: 0 <= i < |r| ==> r[i] == (r + "/")[i] == Slashed(cs)[i];
    assert forall i :: 1 <= i <= |c| ==> Slashed(cs)[i] == c[i - 1] && c[i - 1] in c;
    assert |c| < |r|;
    if |r| == |c| + 1 {
      k := 1;
      assert cs[..1] == [c] && cs[..1][1..] == cs[..0];
      assert r == "/" + c;
    } else {
      var tail := r[|c| + 1..];
      assert tail + "/" == (r + "/")[|c| + 1..] && rest == Slashed(cs)[|c| + 1..];
      var n := SlashedCut(cs[1..], tail);
      k := n + 1;
      assert cs[..k] == [c] + cs[1..][..n];
      assert r == "/" + c + tail;
    }
  }

  /** A normalised text that starts with `r` and a slash shows that `r` is normal. */
  lemma PrefixSteady(cs: seq<string>, double: bool, r: string)
    requires AllClean(cs) && r != "" && r[|r| - 1] != '/'
    requires r + "/" <= (if double then "/" + Render(cs) else Render(cs))
    ensures Normalize(r) == r
  {
    hide Normalize, Slashed;
    assert r[0] == (r + "/")[0];
    if double {
      assert |r| > 1 && r[1..] + "/" == (r + "/")[1..];
      assert r[1..] + "/" <= Render(cs);
      assert cs != [];
      var k := SlashedCut(cs, r[1..]);
      assert r == "/" + r[1..] && cs[..k] != [];
      NormalizeDouble(cs[..k]);
    } else {
      assert cs != [];
      var k := SlashedCut(cs, r);
      assert cs[..k] != [];
      NormalizeRender(cs[..k]);
    }
  }

  lemma NormalWithin(path: string, root: string)
    requires Within(Normalize(path), root)
    ensures SteadyRoot(root)
  {
    var r := RStrip(root);
    var cs := NormalizeShape(path);
    SlashesStrip();
    SlashedEndsClean(cs);
    NormalizeIdempotent(path);
    if cs != [] { StripDouble(cs); }
    if r != "" && Normalize(path) != root { PrefixSteady(cs, DoubleSlash(Rooted(path)), r); }
  }

  lemma SteadyShape(r: string) returns (rs: seq<string>)
    requires r != "" && r[|r| - 1] != '/' && Normalize(r) == r
    ensures AllClean(rs) && rs != [] && (r == Slashed(rs) || r == "/" + Slashed(rs))
  {
    rs := NormalizeShape(r);
  }

  lemma SteadyAppend(r: string, rs: seq<string>, below: seq<string>)
    requires AllClean(rs) && AllClean(below) && rs + below != [] && (r == Slashed(rs) || r == "/" + Slashed(rs))
    ensures Normalize(r + Slashed(below)) == r + Slashed(below)
  {
    hide Normalize, Clean, Slashed;
    SlashedAppend(rs, below);
    NormalizeRender(rs + below);
    NormalizeDouble(rs + below);
    assert "/" + Slashed(rs) + Slashed(below) == "/" + Slashed(rs + below);
  }

  lemma SlashedNothing(none: seq<string>)
    requires none == []
    ensures Slashed(none) == ""
  {}

  /** Appending components to a steady root needs no normalisation. */
  lemma SteadyJoin(root: string, below: seq<string>)
    requires SteadyRoot(root) && AllClean(below) && below != []
    ensures Normalize(RStrip(root) + Slashed(below)) == RStrip(root) + Slashed(below)
  {
    hide Normalize, Slashed;
    var r := RStrip(root);
    if r == "" {
      var none: seq<string> := [];
      SlashedNothing(none);
      SteadyAppend(r, none, below);
    } else {
      var rs := SteadyShape(r);
      SteadyAppend(r, rs, below);
    }
  }

  lemma ProjectBelow(above: seq<string>, below: seq<string>, g: MountRecord)
    requires AllClean(above) && AllClean(below) && g.mountPoint == Render(above)
    ensures Project(Render(above + below), g) == Landing(below, g)
  {
    hide SteadyRoot, Normalize, Slashed, RStrip;
    SlashedEndsClean(above);
    SlashedAppend(above, below);
    var r := RStrip(g.root);
    if below == [] {
      assert above + below == above;
    } else {
      SlashedStart(below);
      var path := Slashed(above) + Slashed(below);
      assert Render(above + below) == path && path[|Slashed(above)|..] == Slashed(below) != "";
      ComponentsOfRender(above);
      ComponentsOfRender(above + below);
      if SteadyRoot(g.root) {
        SteadyJoin(g.root, below);
        assert r + "/" <= r + Slashed(below);
      } else if Within(Normalize(r + Slashed(below)), g.root) {
        NormalWithin(r + Slashed(below), g.root);
      }
    }
  }

  /** A single-slash path lands at the mount's root followed by its components below the mount point. */
  lemma ProjectShape(t: Table, path: string, g: MountRecord) returns (d: nat)
    requires UniqueIds(t) && !DoubleSlash(Rooted(path)) && Governing(t, path) == Resolved(g)
    ensures AllClean(Components(Normalize(path))) && Normalize(path) == Render(Components(Normalize(path)))
    ensures d <= |Components(Normalize(path))| && g.mountPoint == Render(Components(Normalize(path))[..d])
    ensures Project(Normalize(path), g) == Landing(Components(Normalize(path))[d..], g)
  {
    hide Project, Landing, Normalize, Components, Governing, Attached, ChainAccepted, Slashed, Clean;
    var cs := NormalizeShape(path);
    d := GoverningPoint(t, path, g);
    assert cs == cs[..d] + cs[d..];
    ProjectBelow(cs[..d], cs[d..], g);
  }

  /** For a canonical root the landing is written with components. */
  lemma LandingCanonical(below: seq<string>, g: MountRecord)
    requires AllClean(below) && CanonicalPath(g.root)
    ensures SteadyRoot(g.root)
    ensures Landing(below, g) == Resolved(Location(g.device, Render(Components(g.root) + below)))
  {
    var rs := Components(g.root);
    SlashedEndsClean(rs);
    SlashedAppend(rs, below);
    NormalizeRender(rs);
    assert below == [] ==> rs + below == rs;
  }

  /** Projection of a single-slash path never leaves the governing mount's root, whatever that root is.
      It refuses exactly strictly below a mount whose root normalisation would rewrite, which no
      canonical root is. */
  lemma ProjectConfined(t: Table, path: string, g: MountRecord)
    requires UniqueIds(t) && !DoubleSlash(Rooted(path)) && Governing(t, path) == Resolved(g)
    ensures var location := Project(Normalize(path), g);
      && (location.Resolved? ==> location.value.device == g.device && Within(location.value.internal, g.root))
      && (location.Refused? <==> Normalize(path) != g.mountPoint && !SteadyRoot(g.root))
      && (CanonicalPath(g.root) ==> location.Resolved?)
  {
    hide SteadyRoot, Project;
    var d := ProjectShape(t, path, g);
    var cs := Components(Normalize(path));
    var below := cs[d..];
    if below == [] {
      assert cs[..d] == cs;
    } else {
      ComponentsOfRender(cs);
      ComponentsOfRender(cs[..d]);
      assert |cs[..d]| < |cs|;
      var r := RStrip(g.root);
      assert Slashed(below)[0] == '/' && r + "/" <= r + Slashed(below);
    }
    if CanonicalPath(g.root) { LandingCanonical(below, g); }
  }

  lemma SlashedInjective(a: seq<string>, b: seq<string>)
    requires AllClean(a) && AllClean(b) && Slashed(a) == Slashed(b)
    ensures a == b
  {
    if a == [] || b == [] {
      assert Slashed(a) == "" && Slashed(b) == "";
      if a != [] { SlashedStart(a); }
      if b != [] { SlashedStart(b); }
    } else {
      ComponentsOfRender(a);
      ComponentsOfRender(b);
    }
  }

  /** Nothing below a root lands on the root itself. */
  lemma LandingApart(root: string, below: seq<string>)
    requires AllClean(below) && below != []
    ensures RStrip(root) + Slashed(below) != root
  {
    var r, n := RStrip(root), |RStrip(root)|;
    SlashedStart(below);
    assert (r + Slashed(below))[n + 1] == Slashed(below)[1];
  }

  lemma LandingInjective(a: seq<string>, b: seq<string>, g: MountRecord)
    requires AllClean(a) && AllClean(b) && Landing(a, g).Resolved? && Landing(a, g) == Landing(b, g)
    ensures a == b
  {
    if a != [] { LandingApart(g.root, a); }
    if b != [] { LandingApart(g.root, b); }
    if a != [] && b != [] {
      var r := RStrip(g.root);
      assert Slashed(a) == (r + Slashed(a))[|r|..] && Slashed(b) == (r + Slashed(b))[|r|..];
      SlashedInjective(a, b);
    }
  }

  lemma SamePieces(ps: seq<string>, d: nat, qs: seq<string>, e: nat)
    requires AllClean(ps) && AllClean(qs) && d <= |ps| && e <= |qs|
    requires Render(ps[..d]) == Render(qs[..e]) && ps[d..] == qs[e..]
    ensures ps == qs
  {
    ComponentsOfRender(ps[..d]);
    ComponentsOfRender(qs[..e]);
    assert ps == ps[..d] + ps[d..] && qs == qs[..e] + qs[e..];
  }

  /** Two single-slash paths under one governing mount that are answered with the same place are the
      same path, whatever the mount's root. */
  lemma ProjectInjective(t: Table, p: string, q: string, g: MountRecord)
    requires UniqueIds(t) && !DoubleSlash(Rooted(p)) && !DoubleSlash(Rooted(q))
    requires Governing(t, p) == Resolved(g) && Governing(t, q) == Resolved(g)
    requires Project(Normalize(p), g).Resolved? && Project(Normalize(p), g) == Project(Normalize(q), g)
    ensures Normalize(p) == Normalize(q)
  {
    hide Project, Landing, Normalize, Components, Governing;
    var d := ProjectShape(t, p, g);
    var e := ProjectShape(t, q, g);
    var ps, qs := Components(Normalize(p)), Components(Normalize(q));
    LandingInjective(ps[d..], qs[e..], g);
    SamePieces(ps, d, qs, e);
  }

  // ---- Paths that keep two slashes -----------------------------------------------------------------

  /** Below a mount, a double-slash path drops one character too few: what remains starts with the
      last character of the mount point. */
  lemma DoubleSlashRemainder(above: seq<string>, below: seq<string>)
    requires AllClean(above) && AllClean(below) && above != [] && Clean(above[|above| - 1])
    ensures var p, last := "/" + Render(above + below), above[|above| - 1];
      |Slashed(above)| <= |p| && p[|Slashed(above)|..] == [last[|last| - 1]] + Slashed(below)
  {
    var n := |above| - 1;
    var last := above[n];
    assert above[..n] + [last] == above;
    SlashedLast(above[..n], last);
    SlashedAppend(above, below);
    var head := Slashed(above);
    assert head[|head| - 1] == last[|last| - 1];
    var p := "/" + (head + Slashed(below));
    assert p[|head|..] == [head[|head| - 1]] + Slashed(below);
  }

  lemma GluedClean(last: string, ch: char)
    requires Clean(last) && ch != '/'
    ensures Clean(last + [ch])
  {
    var glued := last + [ch];
    assert glued[..|last|] == last;
    assert |last| == 1 ==> last == [glued[0]];
  }

  lemma GluedText(front: seq<string>, last: string, ch: char)
    ensures Slashed(front + [last]) + [ch] == Slashed(front + [last + [ch]])
  {
    SlashedLast(front, last);
    SlashedLast(front, last + [ch]);
    assert Slashed(front) + ("/" + last) + [ch] == Slashed(front) + ("/" + (last + [ch]));
  }

  lemma GluedApart(front: seq<string>, last: string, ch: char, below: seq<string>)
    ensures !(front + [last] <= front + [last + [ch]] + below)
  {
    assert (front + [last])[|front|] == last;
    assert (front + [last + [ch]] + below)[|front|] == last + [ch];
    assert |last + [ch]| != |last|;
  }

  lemma Reassociate(a: string, b: string, c: string)
    ensures a + (b + c) == (a + b) + c
  {}

  /** One more leading slash before a single-slash text stays. */
  lemma LeadingSlash(x: string)
    requires |x| > 1 && x[0] == '/' && x[1] != '/'
    ensures Normalize("/" + x) == "/" + Normalize(x)
  {
    hide Split;
    var text := "/" + x;
    SplitStep('/', x);
    assert text == ['/'] + x && text[..2] == "//" && text[2] != '/';
    assert ([""] + Split(x))[1..] == Split(x);
  }

  /** A normalised root without its trailing slashes: components after one slash or two. */
  predicate Shaped(r: string, double: bool, rs: seq<string>) {
    AllClean(rs) && rs != [] && r == (if double then "/" + Slashed(rs) else Slashed(rs))
  }

  lemma SteadyShaped(root: string) returns (double: bool, rs: seq<string>)
    requires SteadyRoot(root) && RStrip(root) != ""
    ensures Shaped(RStrip(root), double, rs)
  {
    rs := SteadyShape(RStrip(root));
    double := RStrip(root) != Slashed(rs);
  }

  lemma GluedToRoot(rs: seq<string>, ch: char, below: seq<string>) returns (glued: seq<string>)
    requires AllClean(rs) && rs != [] && AllClean(below) && ch != '/'
    ensures AllClean(glued) && glued != [] && !(rs <= glued)
    ensures Slashed(rs) + ([ch] + Slashed(below)) == Slashed(glued)
  {
    var front, last := rs[..|rs| - 1], rs[|rs| - 1];
    assert Clean(last) && rs == front + [last];
    GluedClean(last, ch);
    GluedText(front, last, ch);
    GluedApart(front, last, ch, below);
    glued := front + [last + [ch]] + below;
    SlashedAppend(front + [last + [ch]], below);
    Reassociate(Slashed(rs), [ch], Slashed(below));
  }

  lemma ShapedNormal(double: bool, cs: seq<string>)
    requires AllClean(cs) && cs != []
    ensures var n := if double then "/" + Slashed(cs) else Slashed(cs); Normalize(n) == n && RStrip(n) == n
  {
    NormalizeRender(cs);
    NormalizeDouble(cs);
    StripDouble(cs);
    SlashedEndsClean(cs);
  }

  lemma ShapedApart(r: string, double: bool, rs: seq<string>, glued: seq<string>)
    requires Shaped(r, double, rs) && AllClean(glued) && glued != [] && !(rs <= glued)
    ensures var n := if double then "/" + Slashed(glued) else Slashed(glued); n != r && !(r + "/" <= n)
  {
    var n := if double then "/" + Slashed(glued) else Slashed(glued);
    if double {
      assert r[1..] == Slashed(rs) && n[1..] == Slashed(glued) && (r + "/")[1..] == Slashed(rs) + "/";
      assert r + "/" <= n ==> Slashed(rs) + "/" <= Slashed(glued);
    }
    if n == r { SlashedInjective(rs, glued); }
    if r + "/" <= n { SlashedPrefix(glued, rs); }
  }

  /** A character glued to a root's last component leaves the root. */
  lemma GluedEscapes(root: string, ch: char, below: seq<string>)
    requires AllClean(below) && ch != '/' && RStrip(root) != ""
    ensures !Within(Normalize(RStrip(root) + ([ch] + Slashed(below))), root)
  {
    var r, tail := RStrip(root), [ch] + Slashed(below);
    if !SteadyRoot(root) {
      if Within(Normalize(r + tail), root) { NormalWithin(r + tail, root); }
    } else {
      var double, rs := SteadyShaped(root);
      var glued := GluedToRoot(rs, ch, below);
      assert r + tail == if double then "/" + Slashed(glued) else Slashed(glued) by {
        Reassociate("/", Slashed(rs), tail);
      }
      ShapedNormal(double, glued);
      ShapedApart(r, double, rs, glued);
    }
  }

  lemma ShapedJoin(r: string, double: bool, rs: seq<string>, cs: seq<string>)
    requires Shaped(r, double, rs) && AllClean(cs)
    ensures Normalize(r + ("/" + Render(cs))) == r + Slashed(cs)
  {
    hide Normalize;
    var x := Slashed(rs) + ("/" + Render(cs));
    DoubledJoin(rs, cs);
    SlashedAppend(rs, cs);
    SlashedStart(rs);
    if double {
      assert x[0] == '/' && x[1] == Slashed(rs)[1];
      LeadingSlash(x);
      Reassociate("/", Slashed(rs), "/" + Render(cs));
      Reassociate("/", Slashed(rs), Slashed(cs));
    }
  }

  lemma NormalizeWithinSlashes(path: string, root: string)
    requires RStrip(root) == ""
    ensures Within(Normalize(path), root)
  {
    var cs := NormalizeShape(path);
    RenderIsSingleSlash(cs);
  }

  lemma ProjectRemainder(p: string, g: MountRecord, remainder: string)
    requires |RStrip(g.mountPoint)| <= |p| && p[|RStrip(g.mountPoint)|..] == remainder && remainder != "" && g.mountPoint != p
    ensures var internal := Normalize(RStrip(g.root) + remainder);
      Project(p, g) == if Within(internal, g.root) then Resolved(Location(g.device, internal)) else Refused
  {}

  lemma DoubleSlashDiffers(above: seq<string>, cs: seq<string>)
    requires AllClean(above) && AllClean(cs)
    ensures Render(above) != "/" + Render(cs)
  {
    RenderIsSingleSlash(above);
    DoubleIsDouble(cs);
  }

  // ---- Where a double-slash path lands ---------------------------------------------------------------

  lemma SlashedCons(c: string, below: seq<string>)
    ensures Slashed([c] + below) == "/" + (c + Slashed(below))
  {
    assert ([c] + below)[1..] == below;
  }

  lemma DotCollapses(below: seq<string>)
    requires AllClean(below)
    ensures Collapse([""] + ([['.']] + below), []) == below
  {
    var parts := [['.']] + below;
    assert ([""] + parts)[1..] == parts && parts[1..] == below;
    CollapseIdentity(below, []);
    assert [] + below == below;
  }

  lemma RootedNormalize(path: string, text: string)
    requires path != "" && path[0] != '/' && text == "/" + path
    ensures Normalize(path) == Normalize(text)
  {}

  lemma NormalizeRooted(path: string, text: string, parts: seq<string>)
    requires path != "" && path[0] != '/' && text == "/" + path && Split(text) == parts
    ensures Normalize(path) == Render(Collapse(parts, []))
  {
    RootedNormalize(path, text);
    NormalizeBy(text, parts);
  }

  /** What is left below the mount point when one character too few was dropped. */
  function Glued(ch: char, below: seq<string>): seq<string> {
    if ch == '.' then below else [[ch]] + below
  }

  lemma DotDropped(below: seq<string>, ch: char)
    requires AllClean(below) && ch != '/'
    ensures Normalize([ch] + Slashed(below)) == Render(Glued(ch, below))
  {
    hide Normalize, Slashed, Split, Collapse;
    var parts := [[ch]] + below;
    var text := Slashed(parts);
    SlashedCons([ch], below);
    if ch == '.' {
      SplitSlashed(parts);
      DotCollapses(below);
      NormalizeRooted([ch] + Slashed(below), text, [""] + parts);
    } else {
      NormalizeRender(parts);
      RootedNormalize([ch] + Slashed(below), text);
    }
  }

  lemma LastChar(above: seq<string>)
    requires AllClean(above) && above != []
    ensures var last := above[|above| - 1];
      Clean(last) && Render(above) != "" && Render(above)[|Render(above)| - 1] == last[|last| - 1] != '/'
  {
    var n := |above| - 1;
    assert above[..n] + [above[n]] == above && Clean(above[n]);
    SlashedLast(above[..n], above[n]);
    assert above[n][|above[n]| - 1] in above[n];
  }

  /** The answer for a path that keeps two slashes, whatever the root. */
  function DoubleLanding(below: seq<string>, g: MountRecord): Outcome<Location> {
    var r := RStrip(g.root);
    if g.mountPoint == "/" then
      if r == "" then Resolved(Location(g.device, "/" + Render(below)))
      else if SteadyRoot(g.root) && (below != [] || g.root == r) then Resolved(Location(g.device, r + Slashed(below)))
      else Refused
    else if r == "" && g.mountPoint != "" then
      Resolved(Location(g.device, Render(Glued(g.mountPoint[|g.mountPoint| - 1], below))))
    else Refused
  }

  lemma WithinBelow(root: string, cs: seq<string>)
    requires AllClean(cs)
    ensures cs != [] ==> Within(RStrip(root) + Slashed(cs), root)
    ensures cs == [] ==> RStrip(root) + Slashed(cs) == RStrip(root) && (Within(RStrip(root) + Slashed(cs), root) <==> root == RStrip(root))
  {
    var r := RStrip(root);
    if cs != [] {
      SlashedStart(cs);
      assert r + "/" <= r + Slashed(cs);
    } else {
      assert r + Slashed(cs) == r;
    }
  }

  lemma DoubleAtSlash(cs: seq<string>, g: MountRecord)
    requires AllClean(cs) && g.mountPoint == "/"
    ensures Project("/" + Render(cs), g) == DoubleLanding(cs, g)
  {
    hide Normalize, Project, Slashed, SteadyRoot;
    var p, r := "/" + Render(cs), RStrip(g.root);
    SlashesStrip();
    EmptyRender();
    DoubleSlashDiffers([], cs);
    assert p[0..] == p;
    ProjectRemainder(p, g, p);
    if r == "" {
      NormalizeDouble(cs);
      assert r + p == p;
      NormalizeWithinSlashes(p, g.root);
    } else if SteadyRoot(g.root) {
      var double, rs := SteadyShaped(g.root);
      ShapedJoin(r, double, rs, cs);
      WithinBelow(g.root, cs);
    } else if Within(Normalize(r + p), g.root) {
      NormalWithin(r + p, g.root);
    }
  }

  lemma DoubleBelowPoint(above: seq<string>, below: seq<string>, g: MountRecord)
    requires AllClean(above) && AllClean(below) && above != [] && g.mountPoint == Render(above)
    ensures g.mountPoint != "/" && g.mountPoint != "" && g.mountPoint[|g.mountPoint| - 1] != '/'
    ensures Project("/" + Render(above + below), g) == DoubleLanding(below, g)
  {
    hide Normalize, Project, Slashed, RStrip, SteadyRoot;
    LastChar(above);
    SlashedStart(above);
    SlashedEndsClean(above);
    DoubleSlashDiffers(above, above + below);
    DoubleSlashRemainder(above, below);
    var last := above[|above| - 1];
    var ch := last[|last| - 1];
    var remainder, r := [ch] + Slashed(below), RStrip(g.root);
    ProjectRemainder("/" + Render(above + below), g, remainder);
    if r == "" {
      DotDropped(below, ch);
      assert r + remainder == remainder;
      NormalizeWithinSlashes(remainder, g.root);
    } else {
      GluedEscapes(g.root, ch, below);
    }
  }

  lemma DoubleShape(t: Table, path: string, g: MountRecord) returns (d: nat)
    requires UniqueIds(t) && DoubleSlash(Rooted(path)) && Governing(t, path) == Resolved(g)
    ensures AllClean(Components(Normalize(path))) && d <= |Components(Normalize(path))|
    ensures g.mountPoint == Render(Components(Normalize(path))[..d])
    ensures Project(Normalize(path), g) == DoubleLanding(Components(Normalize(path))[d..], g)
  {
    hide Project, DoubleLanding, Normalize, Components, Slashed, Governing, Clean;
    var cs := NormalizeShape(path);
    d := GoverningPoint(t, path, g);
    assert cs == cs[..d] + cs[d..];
    if d == 0 {
      EmptyRender();
      assert cs[..d] == [] && cs[d..] == cs;
      DoubleAtSlash(cs, g);
    } else {
      DoubleBelowPoint(cs[..d], cs[d..], g);
    }
  }

  // ---- Main results --------------------------------------------------------------------------------

  /** The path names the mount point itself. */
  predicate AtPoint(path: string, g: MountRecord) {
    Components(Normalize(path)) == Components(g.mountPoint)
  }

  lemma AtPointIff(cs: seq<string>, d: nat, g: MountRecord)
    requires AllClean(cs) && d <= |cs| && g.mountPoint == Render(cs[..d])
    ensures cs == Components(g.mountPoint) <==> cs[d..] == []
  {
    ComponentsOfRender(cs[..d]);
    assert cs == cs[..d] + cs[d..];
    assert cs[d..] == [] ==> cs[..d] == cs;
  }

  /** The paths that are refused. */
  predicate Escapes(path: string, g: MountRecord) {
    if !DoubleSlash(Rooted(path)) then !AtPoint(path, g) && !SteadyRoot(g.root)
    else if RStrip(g.root) == "" then false
    else g.mountPoint != "/" || !SteadyRoot(g.root) || (AtPoint(path, g) && g.root != RStrip(g.root))
  }

  lemma CanonicalRoot(root: string)
    requires CanonicalPath(root)
    ensures SteadyRoot(root) && (RStrip(root) == "" <==> root == "/") && (root != "/" ==> RStrip(root) == root) && root != "//"
  {
    var rs := Components(root);
    SlashedEndsClean(rs);
    NormalizeRender(rs);
    RenderIsSingleSlash(rs);
    if rs != [] { SlashedStart(rs); }
    assert "//"[..2] == "//";
  }

  /** The exact escape, for every path and every root. Under a canonical root it comes down to this:
      projection refuses if and only if the path kept two leading slashes and neither the governing
      mount's point nor its root is `/`. */
  lemma EscapeIff(t: Table, path: string, g: MountRecord)
    requires UniqueIds(t) && Governing(t, path) == Resolved(g)
    ensures Project(Normalize(path), g).Refused? <==> Escapes(path, g)
    ensures CanonicalPath(g.root) ==> (Escapes(path, g) <==> DoubleSlash(Rooted(path)) && g.mountPoint != "/" && g.root != "/")
  {
    hide Project, SteadyRoot, Normalize;
    if CanonicalPath(g.root) { CanonicalRoot(g.root); }
    var d;
    if DoubleSlash(Rooted(path)) { d := DoubleShape(t, path, g); } else { d := ProjectShape(t, path, g); }
    AtPointIff(Components(Normalize(path)), d, g);
    if d > 0 { SlashedStart(Components(Normalize(path))[..d]); }
  }

  predicate EndsInDot(s: string) {
    s != "" && s[|s| - 1] == '.'
  }

  /** Where the components below the mount point belong: after the root's own text. */
  function RightPlace(below: seq<string>, root: string): string {
    if below == [] then root else RStrip(root) + Slashed(below)
  }

  /** The paths whose projection is the place their components name. */
  predicate LandsRight(path: string, g: MountRecord) {
    var at, bare := AtPoint(path, g), RStrip(g.root) == "";
    if !DoubleSlash(Rooted(path)) then at || SteadyRoot(g.root)
    else if g.mountPoint == "/" then
      if bare then at && g.root == "//" else SteadyRoot(g.root) && (at ==> g.root == RStrip(g.root))
    else bare && EndsInDot(g.mountPoint) && (at ==> g.root == "/")
  }

  lemma GluedPlace(ch: char, below: seq<string>, root: string)
    requires AllClean(below) && ch != '/' && RStrip(root) == ""
    ensures Render(Glued(ch, below)) == RightPlace(below, root) <==> ch == '.' && (below == [] ==> root == "/")
  {
    EmptyRender();
    if ch != '.' {
      assert Clean([ch]);
      ComponentsOfRender(below);
      ComponentsOfRender([[ch]] + below);
      assert |[[ch]] + below| != |below|;
      SlashedCons([ch], below);
      assert below == [] ==> Render([[ch]] + below)[1] == ch;
    }
    assert RStrip(root) + Slashed(below) == Slashed(below);
  }

  lemma DoubleRightIff(below: seq<string>, path: string, g: MountRecord)
    requires AllClean(below) && DoubleSlash(Rooted(path)) && (AtPoint(path, g) <==> below == [])
    requires g.mountPoint != "/" ==> g.mountPoint != "" && g.mountPoint[|g.mountPoint| - 1] != '/'
    ensures DoubleLanding(below, g) == Resolved(Location(g.device, RightPlace(below, g.root))) <==> LandsRight(path, g)
  {
    hide SteadyRoot, AtPoint, Glued, Slashed;
    var r := RStrip(g.root);
    EmptyRender();
    SlashesStrip();
    if below == [] { SlashedNothing(below); }
    assert below == [] ==> Render(below) == "/" && "/" + Render(below) == "//";
    if g.mountPoint != "/" {
      if r == "" { GluedPlace(g.mountPoint[|g.mountPoint| - 1], below, g.root); }
    } else if r == "" {
      assert r + Slashed(below) == Slashed(below);
      assert |"/" + Render(below)| == 1 + |Render(below)|;
    } else {
      assert r + "" == r;
    }
  }

  lemma SingleRightIff(below: seq<string>, g: MountRecord)
    ensures Landing(below, g) == Resolved(Location(g.device, RightPlace(below, g.root))) <==> below == [] || SteadyRoot(g.root)
  {}

  lemma CanonicalPlace(below: seq<string>, root: string)
    requires AllClean(below) && CanonicalPath(root)
    ensures RightPlace(below, root) == Render(Components(root) + below)
  {
    var rs := Components(root);
    SlashedEndsClean(rs);
    SlashedAppend(rs, below);
    assert below == [] ==> rs + below == rs;
  }

  /** When projection is right, exactly, for every path and every root: when the answer is the root followed
      by the path's components below the mount point. Under a canonical root that is if and only if the
      path has a single leading slash, or it keeps two and either the mount sits at `/` with another root,
      or its root is `/` and its point ends in a dot. Every other path is refused or answered with a wrong
      place. */
  lemma ProjectRightIff(t: Table, path: string, g: MountRecord) returns (d: nat)
    requires UniqueIds(t) && Governing(t, path) == Resolved(g)
    ensures d <= |Components(Normalize(path))| && g.mountPoint == Render(Components(Normalize(path))[..d])
    ensures Project(Normalize(path), g) == Resolved(Location(g.device, RightPlace(Components(Normalize(path))[d..], g.root)))
      <==> LandsRight(path, g)
    ensures CanonicalPath(g.root) ==>
      && RightPlace(Components(Normalize(path))[d..], g.root) == Render(Components(g.root) + Components(Normalize(path))[d..])
      && (LandsRight(path, g) <==>
        || !DoubleSlash(Rooted(path))
        || (if g.mountPoint == "/" then g.root != "/" else g.root == "/" && EndsInDot(g.mountPoint)))
  {
    hide Project, SteadyRoot, Normalize, RightPlace, Landing, DoubleLanding;
    if DoubleSlash(Rooted(path)) { d := DoubleShape(t, path, g); } else { d := ProjectShape(t, path, g); }
    var cs := Components(Normalize(path));
    AtPointIff(cs, d, g);
    if CanonicalPath(g.root) {
      CanonicalRoot(g.root);
      CanonicalPlace(cs[d..], g.root);
    }
    if DoubleSlash(Rooted(path)) {
      if d > 0 { LastChar(cs[..d]); } else { EmptyRender(); assert cs[..d] == []; }
      DoubleRightIff(cs[d..], path, g);
    } else {
      SingleRightIff(cs[d..], g);
    }
  }

  // ---- Tables on which it goes wrong ---------------------------------------------------------------

  /** For every path that keeps two slashes before a component there is a table whose point query
      answers and whose projection refuses. */
  lemma EscapeWitness(path: string) returns (t: Table)
    requires !Tidy(path)
    ensures UniqueIds(t) && Resolve(t, Query(PointLookup, path)).Resolved?
    ensures Project(Normalize(path), Resolve(t, Query(PointLookup, path)).value.governing).Refused?
  {
    hide Project, Resolve;
    var cs := NormalizeShape(path);
    t := TwoMounts(cs[0], Render(cs));
    var child := ChildMount(cs[0], Render(cs));
    TwoMountResolves(cs[0], Render(cs), Query(PointLookup, path));
    TwoMountGoverning(cs[0], Render(cs), path);
    ChildPoint(cs[0]);
    ComponentsOfRender(cs);
    SlashedStart(cs);
    EscapeIff(t, path, child);
  }

  /** A steady root has no empty part after its leading slashes. */
  lemma SteadyParts(root: string)
    requires SteadyRoot(root) && RStrip(root) == root
    ensures forall k :: 2 <= k < |Split(root)| ==> Split(root)[k] != ""
  {
    if root == "" {
      assert Split(root) == [""];
    } else {
      var double, rs := SteadyShaped(root);
      SplitSlashed(rs);
      SplitStep('/', Slashed(rs));
      assert "/" + Slashed(rs) == ['/'] + Slashed(rs);
      var parts := if double then [""] + ([""] + rs) else [""] + rs;
      assert Split(root) == parts;
      forall k | 2 <= k < |parts| ensures parts[k] != "" { assert parts[k] in rs; }
    }
  }

  lemma DeletedUnsteady(source: seq<string>)
    requires AllClean(source) && source != []
    ensures !SteadyRoot(Slashed(source) + "//deleted")
  {
    hide SteadyRoot;
    var head, mark := Slashed(source), "/deleted";
    var root := head + "//deleted";
    assert "//deleted" == "/" + mark && root == head + ("/" + mark);
    assert root[|root| - 1] == "//deleted"[8] == 'd';
    assert RStrip(root) == root;
    SplitSlashed(source);
    SplitAt(head, mark);
    SplitAt("", "deleted");
    assert "" + ("/" + "deleted") == mark && Split("") == [""];
    assert Split(root)[|source| + 1] == "";
    if SteadyRoot(root) { SteadyParts(root); }
  }

  /** A single-slash path refused because of the root: below a bind mount whose source was removed, which
      the kernel marks by appending `//deleted` to the root, every path strictly below the mount point. */
  lemma DeletedRootRefuses(c: string, source: seq<string>, below: seq<string>) returns (t: Table, path: string)
    requires Clean(c) && AllClean(source) && source != [] && AllClean(below) && below != []
    ensures UniqueIds(t) && path == Render([c] + below)
    ensures Governing(t, path) == Resolved(ChildMount(c, Slashed(source) + "//deleted"))
    ensures Project(Normalize(path), ChildMount(c, Slashed(source) + "//deleted")).Refused?
  {
    hide Project, Governing;
    var root, ps := Slashed(source) + "//deleted", [c] + below;
    t, path := TwoMounts(c, root), Render(ps);
    ComponentsOfRender(ps);
    NormalizeRender(ps);
    RenderIsSingleSlash(ps);
    TwoMountBases(c, root);
    TwoMountGoverning(c, root, path);
    ChildPoint(c);
    ComponentsOfRender([c]);
    DeletedUnsteady(source);
    EscapeIff(t, path, ChildMount(c, root));
  }

  /** And one whose projection is accepted but shared: `//c/below` lands where `/c/x/below` belongs, `x`
      being the last character of `c`. Injectivity fails on accepted paths. */
  lemma CollisionWitness(c: string, below: seq<string>) returns (t: Table, p: string, q: string, g: MountRecord)
    requires Clean(c) && c[|c| - 1] != '.' && AllClean(below)
    ensures UniqueIds(t) && Normalize(p) == p && Normalize(q) == q && p != q
    ensures p == "/" + Render([c] + below)
    ensures Resolve(t, Query(PointLookup, p)).Resolved? && Resolve(t, Query(PointLookup, p)).value.governing == g
    ensures Governing(t, q) == Resolved(g) && Project(p, g).Resolved? && Project(p, g) == Project(q, g)
  {
    hide Project, Resolve, Governing;
    var ps, ch := [c] + below, c[|c| - 1];
    var extra := [[ch]] + below;
    assert ch in c && Clean([ch]);
    var qs := [c] + extra;
    t, g := TwoMounts(c, "/"), ChildMount(c, "/");
    p, q := "/" + Render(ps), Render(qs);
    ChildPoint(c);
    NormalizeDouble(ps);
    NormalizeRender(qs);
    ComponentsOfRender(ps);
    ComponentsOfRender(qs);
    RenderIsSingleSlash(ps);
    RenderIsSingleSlash(qs);
    DoubleIsDouble(ps);
    TwoMountResolves(c, "/", Query(PointLookup, p));
    TwoMountGoverning(c, "/", q);
    SlashesStrip();
    DoubleBelowPoint([c], below, g);
    ProjectBelow([c], extra, g);
    EmptyRender();
    ComponentsOfRender([]);
    LandingCanonical(extra, g);
    assert [] + extra == extra;
  }
}
