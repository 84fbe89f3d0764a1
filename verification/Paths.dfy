/**
 Slash-separated paths: the lexical rules of path.Clean, path.Dir and path.Join, the strings that
 stand for absolute paths, and the two backends' mappings from their own names to remote paths.
 */
module Paths {
  import opened Words

  predicate IsName(s: string) {
    s != "" && s != "." && s != ".." && '/' !in s
  }

  type Name = s: string | IsName(s) witness "a"

  /** An absolute path below the root, as the names on the way. */
  type Path = seq<Name>

  function Parent(p: Path): Path
    requires p != []
  {
    p[..|p| - 1]
  }

  function Body(p: seq<string>): string {
    if p == [] then "" else Body(p[..|p| - 1]) + "/" + p[|p| - 1]
  }

  /** The cleaned string of an absolute path. */
  function Render(p: Path): string {
    if p == [] then "/" else Body(p)
  }

  // ---------- The lexical rules of package path ----------

  /** The pieces between slashes; n slashes make n + 1 pieces. */
  function Split(s: string): (r: seq<string>)
    ensures |r| >= 1
  {
    if s == "" then [""]
    else if s[0] == '/' then [""] + Split(s[1..])
    else var r := Split(s[1..]); [[s[0]] + r[0]] + r[1..]
  }

  /** The effect of one more piece on what has been collected. */
  function Push(rooted: bool, stack: seq<string>, piece: string): seq<string> {
    if piece == "" || piece == "." then stack
    else if piece == ".." then
      if stack != [] && stack[|stack| - 1] != ".." then stack[..|stack| - 1]
      else if rooted then stack
      else stack + [".."]
    else stack + [piece]
  }

  function Reduce(rooted: bool, stack: seq<string>, pieces: seq<string>): seq<string> {
    if pieces == [] then stack else Push(rooted, Reduce(rooted, stack, pieces[..|pieces| - 1]), pieces[|pieces| - 1])
  }

  predicate Rooted(s: string) {
    s != "" && s[0] == '/'
  }

  function Clean(s: string): string {
    var stack := Reduce(Rooted(s), [], Split(s));
    if Rooted(s) then (if stack == [] then "/" else Body(stack))
    else if stack == [] then "." else Body(stack)[1..]
  }

  /** path.Join: empty elements are ignored. */
  function Join(a: string, b: string): string {
    if a == "" && b == "" then "" else if a == "" then Clean(b) else if b == "" then Clean(a) else Clean(a + "/" + b)
  }

  /** path.Join(a, "/", b) for a non-empty b. */
  function JoinUnderSlash(a: string, b: string): string {
    if a == "" then Clean("/" + "/" + b) else Clean(a + "/" + "/" + "/" + b)
  }

  function LastSlash(s: string): nat {
    if s == "" then 0 else if s[|s| - 1] == '/' then |s| else LastSlash(s[..|s| - 1])
  }

  /** path.Dir: all but the last element, cleaned. */
  function Dir(s: string): string {
    assert LastSlash(s) <= |s| by { LastSlashBound(s); }
    Clean(s[..LastSlash(s)])
  }

  lemma {:induction false} LastSlashBound(s: string)
    ensures LastSlash(s) <= |s|
  {
    if s != "" && s[|s| - 1] != '/' { LastSlashBound(s[..|s| - 1]); }
  }

  // ---------- Splitting ----------

  lemma {:induction false} SplitPlain(s: string)
    requires '/' !in s
    ensures Split(s) == [s]
  {
    if s != "" {
      SplitPlain(s[1..]);
      assert [s[0]] + s[1..] == s;
    }
  }

  lemma {:induction false} SplitSlash(a: string, b: string)
    ensures Split(a + "/" + b) == Split(a) + Split(b)
  {
    if a == "" {
      assert a + "/" + b == "/" + b;
      assert ("/" + b)[1..] == b;
    } else {
      SplitSlash(a[1..], b);
      assert (a + "/" + b)[1..] == a[1..] + "/" + b && (a + "/" + b)[0] == a[0];
      if a[0] == '/' {
        AppendAssoc([""], Split(a[1..]), Split(b));
      } else {
        LongerHead(a[0], Split(a[1..]), Split(b));
      }
    }
  }

  lemma LongerHead(c: char, r: seq<string>, t: seq<string>)
    requires r != []
    ensures [[c] + (r + t)[0]] + (r + t)[1..] == [[c] + r[0]] + r[1..] + t
  {
    assert (r + t)[1..] == r[1..] + t;
  }

  predicate NoSlash(pieces: seq<string>) {
    forall i | 0 <= i < |pieces| :: '/' !in pieces[i]
  }

  lemma {:induction false} SplitBody(p: seq<string>)
    requires NoSlash(p)
    ensures Split(Body(p)) == [""] + p
  {
    if p != [] {
      var n := |p| - 1;
      SplitBody(p[..n]);
      SplitSlash(Body(p[..n]), p[n]);
      SplitPlain(p[n]);
      assert p == p[..n] + [p[n]];
    }
  }

  /** Different paths have different strings. */
  lemma RenderInjective(p: Path, q: Path)
    ensures Render(p) == Render(q) <==> p == q
  {
    SplitBody(p);
    SplitBody(q);
    if p == [] && q != [] { assert Split("/") == ["", ""]; assert Split(Body(q))[1] == q[0]; }
    if q == [] && p != [] { assert Split("/") == ["", ""]; assert Split(Body(p))[1] == p[0]; }
    if Body(p) == Body(q) {
      assert p == ([""] + p)[1..] && q == ([""] + q)[1..];
    }
  }

  /** The string prefix p + "/" picks out exactly the strict descendants of a path other than the root. */
  lemma PrefixExactly(p: Path, q: Path)
    requires p != []
    ensures Render(p) + "/" <= Render(q) <==> p < q
  {
    BodyStart(p);
    if p < q { PrefixOfBody(p, q); }
    if q != [] && Body(p) + "/" <= Body(q) { BodyPrefix(p, q, Body(q)[|Body(p)| + 1..]); }
  }

  lemma BodyPrefix(p: Path, q: Path, t: string)
    requires Body(q) == Body(p) + "/" + t
    ensures p < q
  {
    SplitSlash(Body(p), t);
    SplitBody(p);
    SplitBody(q);
    AppendAssoc([""], p, Split(t));
    ConsCancel("", q, p + Split(t));
  }

  lemma {:induction false} BodyStart(q: Path)
    requires q != []
    ensures |Body(q)| >= 2 && Body(q)[0] == '/' && Body(q)[1] == q[0][0]
    decreases |q|
  {
    if |q| > 1 { BodyStart(q[..|q| - 1]); }
  }

  lemma {:induction false} PrefixOfBody(p: Path, q: Path)
    requires p < q
    ensures Body(p) + "/" <= Body(q)
    decreases |q|
  {
    var n := |q| - 1;
    if |p| == n {
      assert p == q[..n];
    } else {
      assert p < q[..n];
      PrefixOfBody(p, q[..n]);
      assert Body(p) + "/" <= Body(q[..n]) <= Body(q);
    }
  }

  /** The root is the exception: no cleaned path starts with "//". */
  lemma RootHasNoPrefix(q: Path)
    ensures !(Render([]) + "/" <= Render(q))
  {
    if q != [] { BodyStart(q); }
  }

  // ---------- Cleaning ----------

  lemma {:induction false} ReduceConcat(rooted: bool, stack: seq<string>, a: seq<string>, b: seq<string>)
    ensures Reduce(rooted, stack, a + b) == Reduce(rooted, Reduce(rooted, stack, a), b)
  {
    if b == [] {
      assert a + b == a;
    } else {
      var n := |b| - 1;
      ReduceConcat(rooted, stack, a, b[..n]);
      assert (a + b)[..|a + b| - 1] == a + b[..n];
    }
  }

  /** What cleaning collects: names, after leading ".." if the string is not rooted. */
  predicate Normal(rooted: bool, stack: seq<string>) {
    && (forall i | 0 <= i < |stack| :: stack[i] != "" && stack[i] != "." && '/' !in stack[i])
    && (rooted ==> forall i | 0 <= i < |stack| :: stack[i] != "..")
    && (forall i | 0 < i < |stack| && stack[i] == ".." :: stack[i - 1] == "..")
  }

  lemma {:induction false} ReduceNormal(rooted: bool, stack: seq<string>, pieces: seq<string>)
    requires Normal(rooted, stack) && NoSlash(pieces)
    ensures Normal(rooted, Reduce(rooted, stack, pieces))
  {
    if pieces != [] {
      ReduceNormal(rooted, stack, pieces[..|pieces| - 1]);
    }
  }

  lemma {:induction false} SplitHasNoSlash(s: string)
    ensures NoSlash(Split(s))
  {
    if s != "" { SplitHasNoSlash(s[1..]); }
  }

  /** Where a walk from `base` leads along the pieces of `s`, ".." going up and stopping at the top. */
  function Walk(base: Path, s: string): (p: Path) {
    SplitHasNoSlash(s);
    ReduceNormal(true, base, Split(s));
    Reduce(true, base, Split(s))
  }

  /** The path that a rooted string cleans to. */
  function Resolve(s: string): (p: Path)
    requires Rooted(s)
    ensures Clean(s) == Render(p)
  {
    Walk([], s)
  }

  lemma WalkSlash(base: Path, a: string, b: string)
    ensures Walk(base, a + "/" + b) == Walk(Walk(base, a), b)
  {
    SplitSlash(a, b);
    ReduceConcat(true, base, Split(a), Split(b));
  }

  lemma WalkPlain(base: Path, piece: string)
    requires '/' !in piece
    ensures Walk(base, piece) == Push(true, base, piece)
  {
    SplitPlain(piece);
    assert [piece][..0] == [];
    assert Reduce(true, base, [piece][..0]) == base;
  }

  /** A walk along an empty string or "." stays. */
  lemma WalkNowhere(base: Path)
    ensures Walk(base, "") == base && Walk(base, ".") == base && Walk(base, "/") == base
  {
    WalkPlain(base, "");
    WalkPlain(base, ".");
    WalkSlash(base, "", "");
    assert "" + "/" + "" == "/";
  }

  /**
   Cleaning a rooted string, piece by piece: nothing and "." stay, ".." goes to the parent and stays at
   the top, a name goes down. Every rooted string is "/" or some rooted string, a slash and a piece.
   */
  lemma {:induction false} CleanPieceByPiece(s: string, piece: string) returns (p: Path)
    requires Rooted(s) && '/' !in piece
    ensures Clean("/") == "/" && Clean("/" + piece) == Clean("/" + "/" + piece)
    ensures Clean(s) == Render(p)
    ensures piece == "" || piece == "." ==> Clean(s + "/" + piece) == Render(p)
    ensures piece == ".." ==> Clean(s + "/" + piece) == Render(if p == [] then [] else Parent(p))
    ensures IsName(piece) ==> Clean(s + "/" + piece) == Render(p + [piece])
  {
    p := Resolve(s);
    WalkNowhere([]);
    assert Resolve("/") == [];
    OneMorePiece(s, piece);
    OneMorePiece("/", piece);
    WalkSlash([], "", piece);
    assert "" + "/" + piece == "/" + piece;
    assert Resolve("/" + piece) == Push(true, [], piece) by { WalkPlain([], piece); }
  }

  lemma OneMorePiece(s: string, piece: string)
    requires Rooted(s) && '/' !in piece
    ensures Rooted(s + "/" + piece) && Resolve(s + "/" + piece) == Push(true, Resolve(s), piece)
  {
    WalkSlash([], s, piece);
    WalkPlain(Walk([], s), piece);
  }

  lemma {:induction false} ReduceNames(rooted: bool, stack: seq<string>, p: Path)
    ensures Reduce(rooted, stack, p) == stack + p
  {
    if p != [] {
      ReduceNames(rooted, stack, p[..|p| - 1]);
    }
  }

  /** A walk along the string of a path goes down that path. */
  lemma WalkRender(base: Path, p: Path)
    ensures Walk(base, Render(p)) == base + p && Rooted(Render(p))
  {
    WalkNowhere(base);
    if p != [] {
      BodyStart(p);
      SplitBody(p);
      ReduceConcat(true, base, [""], p);
      ReduceNames(true, base, p);
      assert Reduce(true, base, [""]) == base;
    }
  }

  /** Walking down what cleaning leaves of the pieces is walking along the pieces. */
  lemma {:induction false} WalkReduced(base: Path, pieces: seq<string>)
    requires NoSlash(pieces)
    ensures Reduce(true, base, Reduce(false, [], pieces)) == Reduce(true, base, pieces)
  {
    if pieces != [] {
      var init, last := pieces[..|pieces| - 1], pieces[|pieces| - 1];
      var stack := Reduce(false, [], init);
      WalkReduced(base, init);
      ReduceNormal(false, [], init);
      WalkPush(base, stack, last);
    }
  }

  lemma WalkPush(base: Path, stack: seq<string>, piece: string)
    requires Normal(false, stack)
    ensures Reduce(true, base, Push(false, stack, piece)) == Push(true, Reduce(true, base, stack), piece)
  {
    if Push(false, stack, piece) == stack + [piece] {
      assert (stack + [piece])[..|stack|] == stack;
    }
  }

  lemma CleanRelative(s: string)
    requires !Rooted(s)
    ensures var stack := Reduce(false, [], Split(s));
            Clean(s) != "" && !Rooted(Clean(s)) && Split(Clean(s)) == if stack == [] then ["."] else stack
  {
    var stack := Reduce(false, [], Split(s));
    SplitHasNoSlash(s);
    ReduceNormal(false, [], Split(s));
    SplitPlain(".");
    if stack != [] {
      SplitBody(stack);
      BodyFront(stack);
      ConsCancel("", Split(Body(stack)[1..]), stack);
    }
  }

  lemma {:induction false} BodyFront(p: seq<string>)
    requires p != [] && p[0] != ""
    ensures |Body(p)| >= 2 && Body(p)[0] == '/' && Body(p)[1] == p[0][0]
    decreases |p|
  {
    if |p| > 1 { BodyFront(p[..|p| - 1]); }
  }

  /** Where a name stands below `base`: a rooted one cannot climb out of it, a relative one can. */
  function Below(base: Path, name: string): Path {
    if Rooted(name) then base + Resolve(name) else Walk(base, name)
  }

  /** A walk along a cleaned string. */
  lemma WalkClean(base: Path, s: string)
    ensures Walk(base, Clean(s)) == Below(base, s)
    ensures Clean(s) != "" && (Rooted(Clean(s)) <==> Rooted(s))
  {
    if Rooted(s) {
      WalkRender(base, Resolve(s));
    } else {
      CleanRelative(s);
      SplitHasNoSlash(s);
      WalkReduced(base, Split(s));
      WalkNowhere(base);
    }
  }

  /** Cleaning does not change where a name stands. */
  lemma BelowClean(base: Path, s: string)
    ensures Below(base, Clean(s)) == Below(base, s)
  {
    WalkClean(base, s);
    WalkClean([], s);
    if Rooted(s) { assert [] + Resolve(s) == Resolve(s); }
  }

  lemma RootedJoin(a: string, b: string)
    requires Rooted(a) && b != ""
    ensures Join(a, b) == Render(Walk(Resolve(a), b))
  {
    WalkSlash([], a, b);
  }

  // ---------- path.Dir ----------

  lemma {:induction false} LastSlashAfter(s: string)
    ensures LastSlash(s) <= |s| && '/' !in s[LastSlash(s)..]
    ensures LastSlash(s) > 0 ==> s[LastSlash(s) - 1] == '/'
  {
    if s != "" && s[|s| - 1] != '/' {
      var t := s[..|s| - 1];
      LastSlashAfter(t);
      assert s[LastSlash(s)..] == t[LastSlash(t)..] + [s[|s| - 1]];
    }
  }

  /** The last piece of a string. */
  function Last(s: string): string {
    Split(s)[|Split(s)| - 1]
  }

  /** A string is the part up to its last slash and its last piece. */
  lemma {:induction false} HeadAndLast(s: string) returns (head: string)
    ensures LastSlash(s) <= |s| && head == s[..LastSlash(s)] && (Rooted(head) <==> Rooted(s))
    ensures forall base :: Walk(base, s) == Reduce(true, Walk(base, head), [Last(s)])
  {
    var k := LastSlash(s);
    LastSlashAfter(s);
    head := s[..k];
    SplitPlain(s[k..]);
    if k == 0 {
      assert s[0..] == s;
      forall base ensures Walk(base, s) == Reduce(true, Walk(base, head), [Last(s)]) { WalkNowhere(base); }
    } else {
      var a := s[..k - 1];
      assert s == a + "/" + s[k..] && head == a + "/" + "";
      SplitSlash(a, s[k..]);
      forall base ensures Walk(base, s) == Reduce(true, Walk(base, head), [Last(s)]) {
        WalkSlash(base, a, "");
        WalkSlash(base, a, s[k..]);
        WalkNowhere(Walk(base, a));
      }
    }
  }

  /** Where path.Dir of a name stands, and where the name stands from there. */
  lemma BelowDir(base: Path, s: string) returns (top: Path, up: Path)
    ensures Below(base, Dir(s)) == top + up && Below(base, s) == top + Push(true, up, Last(s))
    ensures Rooted(s) ==> Dir(s) == Render(up) && Clean(s) == Render(Push(true, up, Last(s)))
  {
    var head := HeadAndLast(s);
    BelowClean(base, head);
    top, up := if Rooted(s) then base else [], Walk(if Rooted(s) then [] else base, head);
    assert [Last(s)][..0] == [];
    assert Reduce(true, up, [Last(s)]) == Push(true, up, Last(s));
  }

  lemma LastOfRender(p: Path)
    ensures Last(Render(p)) == if p == [] then "" else p[|p| - 1]
  {
    if p == [] {
      assert Split("/") == ["", ""];
    } else {
      SplitBody(p);
    }
  }

  /** On the strings of paths, path.Dir is the parent; the root is its own. */
  lemma {:induction false} DirOfRender(p: Path)
    ensures Dir(Render(p)) == if p == [] then Render([]) else Render(Parent(p))
  {
    WalkRender([], p);
    LastOfRender(p);
    var top, up := BelowDir([], Render(p));
    WalkClean([], Render(p));
    RenderInjective(p, Push(true, up, Last(Render(p))));
    assert [] + p == p;
  }

  // ---------- The WebDAV mapping ----------

  /** unicode.IsSpace. */
  predicate IsSpace(c: char) {
    || '\t' <= c <= '\r' || c == ' ' || c == '\U{0085}' || c == '\U{00A0}' || c == '\U{1680}'
    || '\U{2000}' <= c <= '\U{200A}' || c == '\U{2028}' || c == '\U{2029}' || c == '\U{202F}'
    || c == '\U{205F}' || c == '\U{3000}'
  }

  function TrimSpace(s: string): string {
    if s == "" then s
    else if IsSpace(s[0]) then TrimSpace(s[1..])
    else if IsSpace(s[|s| - 1]) then TrimSpace(s[..|s| - 1])
    else s
  }

  /** No space at either end. */
  predicate Tight(s: string) {
    s != "" ==> !IsSpace(s[0]) && !IsSpace(s[|s| - 1])
  }

  predicate AllSpaces(s: string) {
    forall i | 0 <= i < |s| :: IsSpace(s[i])
  }

  /** Trimming takes away spaces at both ends, all of them, and nothing else. */
  lemma {:induction false} TrimSpaceExactly(s: string) returns (left: string, right: string)
    ensures s == left + TrimSpace(s) + right
    ensures AllSpaces(left) && AllSpaces(right) && Tight(TrimSpace(s))
    decreases |s|
  {
    left, right := "", "";
    if s == "" {
    } else if IsSpace(s[0]) {
      left, right := TrimSpaceExactly(s[1..]);
      assert s == [s[0]] + left + TrimSpace(s) + right;
      left := [s[0]] + left;
    } else if IsSpace(s[|s| - 1]) {
      left, right := TrimSpaceExactly(s[..|s| - 1]);
      assert s == left + TrimSpace(s) + (right + [s[|s| - 1]]);
      right := right + [s[|s| - 1]];
    }
  }

  lemma TrimSpaceTight(s: string)
    requires Tight(s)
    ensures TrimSpace(s) == s
  {
  }

  lemma {:induction false} TrimSpaceLeft(left: string, s: string)
    requires AllSpaces(left)
    ensures TrimSpace(left + s) == TrimSpace(s)
  {
    if left == "" {
      assert left + s == s;
    } else {
      assert (left + s)[1..] == left[1..] + s;
      TrimSpaceLeft(left[1..], s);
    }
  }

  lemma {:induction false} TrimSpaceRight(s: string, right: string)
    requires AllSpaces(right) && Tight(s)
    ensures TrimSpace(s + right) == s
    decreases |right|
  {
    if s == "" {
      assert s + right == right + "";
      TrimSpaceLeft(right, "");
    } else if right == "" {
      assert s + right == s;
    } else {
      assert (s + right)[..|s + right| - 1] == s + right[..|right| - 1];
      TrimSpaceRight(s, right[..|right| - 1]);
    }
  }

  /** The printing characters of ASCII are no spaces, blanks and line ends are. */
  lemma SpacesAre(c: char)
    ensures '!' <= c <= '~' ==> !IsSpace(c)
    ensures c == ' ' || c == '\t' || c == '\n' || c == '\r' ==> IsSpace(c)
  {
  }

  function TrimSlashes(s: string): string {
    if s != "" && s[|s| - 1] == '/' then TrimSlashes(s[..|s| - 1]) else s
  }

  /** Only slashes are cut off, at the end, all of them. */
  lemma {:induction false} TrimSlashesExactly(s: string) returns (cut: string)
    ensures s == TrimSlashes(s) + cut && forall i | 0 <= i < |cut| :: cut[i] == '/'
    ensures TrimSlashes(s) != "" ==> TrimSlashes(s)[|TrimSlashes(s)| - 1] != '/'
  {
    if s != "" && s[|s| - 1] == '/' {
      cut := TrimSlashesExactly(s[..|s| - 1]);
      assert s == TrimSlashes(s) + (cut + "/");
      cut := cut + "/";
    } else {
      cut := "";
    }
  }

  function WebdavRoot(root: string): string {
    var r := TrimSlashes(root);
    if r == "" then "/" else r
  }

  function WebdavAbs(root: string, name: string): string {
    var cleaned := Clean("/" + TrimSpace(name));
    if cleaned == "/" then root else Join(root, cleaned)
  }

  /** The path, relative to the root, that a WebDAV name stands for. */
  function WebdavPath(name: string): Path {
    Resolve("/" + TrimSpace(name))
  }

  lemma {:induction false} TrimRender(p: Path)
    ensures TrimSlashes(Render(p)) == if p == [] then "" else Render(p)
  {
    if p == [] {
      assert "/"[..0] == "";
    } else {
      var last := p[|p| - 1];
      assert Body(p)[|Body(p)| - 1] == last[|last| - 1];
    }
  }

  /**
   Under a clean root every WebDAV name, ".." and all, maps to the root or below it, and two names map
   to the same remote path exactly when they clean to the same path.
   */
  lemma WebdavAbsStaysUnderRoot(r: Path, name: string, other: string)
    ensures WebdavRoot(Render(r)) == Render(r)
    ensures WebdavAbs(Render(r), name) == Render(r + WebdavPath(name))
    ensures WebdavAbs(Render(r), name) == WebdavAbs(Render(r), other) <==> WebdavPath(name) == WebdavPath(other)
  {
    TrimRender(r);
    WebdavAbsIs(r, name);
    WebdavAbsIs(r, other);
    var p, q := WebdavPath(name), WebdavPath(other);
    RenderInjective(r + p, r + q);
    if r + p == r + q { assert p == (r + p)[|r|..] && q == (r + q)[|r|..]; }
  }

  lemma WebdavAbsIs(r: Path, name: string)
    ensures WebdavAbs(Render(r), name) == Render(r + WebdavPath(name))
  {
    var p := WebdavPath(name);
    RenderInjective(p, []);
    WalkRender([], r);
    WalkRender(r, p);
    RootedJoin(Render(r), Render(p));
    assert [] + r == r;
    if p == [] { assert r + p == r; }
  }

  /** A name with spaces around it or not maps to the root and, below it, the path that the name itself cleans to. */
  lemma {:induction false} WebdavAbsOfName(r: Path, left: string, name: string, right: string, p: Path)
    requires AllSpaces(left) && Tight(name) && AllSpaces(right) && Clean("/" + name) == Render(p)
    ensures WebdavAbs(Render(r), left + name + right) == Render(r + p)
  {
    assert left + name + right == left + (name + right);
    TrimSpaceLeft(left, name + right);
    TrimSpaceRight(name, right);
    WebdavAbsIs(r, left + name + right);
    RenderInjective(p, WebdavPath(left + name + right));
  }

  // ---------- The NFS mapping ----------

  function NfsAbs(root: string, chrootAt: string, name: string): string {
    var inner := Clean(name);
    var path := if chrootAt != "" then Join(chrootAt, inner) else inner;
    if Rooted(path) then Join(root, path) else JoinUnderSlash(root, path)
  }

  function Chroot(chrootAt: string, name: string): string {
    Join(chrootAt, name)
  }

  lemma JoinTop(path: string)
    ensures Clean("/" + "/" + path) == Render(Walk([], path)) && Clean("/" + path) == Render(Walk([], path))
  {
    WalkNowhere([]);
    WalkSlash([], "/", path);
    WalkSlash([], "", path);
    assert "" + "/" + path == "/" + path;
  }

  lemma JoinBelow(r: Path, path: string)
    requires path != "" && r != []
    ensures Clean(Render(r) + "/" + path) == Render(Walk(r, path))
    ensures Clean(Render(r) + "/" + "/" + "/" + path) == Render(Walk(r, path))
  {
    var deep := "/" + "/" + path;
    WalkRender([], r);
    assert [] + r == r;
    WalkSlash([], Render(r), path);
    WalkNowhere(r);
    WalkSlash([], Render(r), deep);
    WalkSlash(r, "/", path);
    assert Render(r) + "/" + deep == Render(r) + "/" + "/" + "/" + path;
  }

  lemma JoinRoot(r: Path, path: string)
    requires path != ""
    ensures var root := TrimSlashes(Render(r));
            (if Rooted(path) then Join(root, path) else JoinUnderSlash(root, path)) == Render(Walk(r, path))
  {
    TrimRender(r);
    if r == [] {
      JoinTop(path);
      assert Rooted(path) ==> Join("", path) == Render(Resolve(path));
    } else {
      JoinBelow(r, path);
    }
  }

  /** Where an NFS name stands: below the root and the chroot, which a rooted chroot or name confines it to. */
  function NfsPath(r: Path, chrootAt: string, name: string): Path {
    if chrootAt == "" then Below(r, name)
    else if Rooted(chrootAt) then r + Below(Resolve(chrootAt), name)
    else Below(Walk(r, chrootAt), name)
  }

  /** The remote path of every NFS name, ".." and all. */
  lemma NfsAbsIs(r: Path, chrootAt: string, name: string)
    ensures NfsAbs(TrimSlashes(Render(r)), chrootAt, name) == Render(NfsPath(r, chrootAt, name))
  {
    WalkClean(r, name);
    var inner := Clean(name);
    if chrootAt == "" {
      JoinRoot(r, inner);
    } else {
      var joined := chrootAt + "/" + inner;
      WalkClean(r, joined);
      JoinRoot(r, Clean(joined));
      if Rooted(chrootAt) {
        WalkSlash([], chrootAt, inner);
        WalkClean(Resolve(chrootAt), name);
      } else {
        WalkSlash(r, chrootAt, inner);
        WalkClean(Walk(r, chrootAt), name);
      }
    }
  }

  predicate NoUp(pieces: seq<string>) {
    forall i | 0 <= i < |pieces| :: pieces[i] != ".."
  }

  lemma {:induction false} ReduceDown(base: Path, pieces: seq<string>)
    requires NoUp(pieces) && NoSlash(pieces)
    ensures Normal(true, Reduce(true, [], pieces)) && Reduce(true, base, pieces) == base + Reduce(true, [], pieces)
  {
    if pieces != [] {
      var init := pieces[..|pieces| - 1];
      ReduceDown(base, init);
      AppendAssoc(base, Reduce(true, [], init), [pieces[|pieces| - 1]]);
    }
  }

  /** Without "..", a walk from anywhere only goes down. */
  lemma WalkDown(base: Path, s: string)
    requires NoUp(Split(s))
    ensures Walk(base, s) == Below(base, s) == base + Walk([], s)
  {
    SplitHasNoSlash(s);
    ReduceDown(base, Split(s));
  }

  /** Without "..", every name stands below the root and the chroot, in that order, rooted or not. */
  lemma NfsStaysUnderRoot(r: Path, chrootAt: string, name: string)
    requires NoUp(Split(chrootAt)) && NoUp(Split(name))
    ensures NfsAbs(TrimSlashes(Render(r)), chrootAt, name) == Render(r + (Walk([], chrootAt) + Walk([], name)))
  {
    NfsAbsIs(r, chrootAt, name);
    var c := Walk([], chrootAt);
    WalkDown(r, chrootAt);
    WalkDown(c, name);
    WalkDown(r + c, name);
    AppendAssoc(r, c, Walk([], name));
    if chrootAt == "" {
      WalkNowhere([]);
      WalkDown(r, name);
      assert [] + Walk([], name) == Walk([], name);
    }
  }

  /** As if the string were relative, cleaning leaves "..": its ".." outnumber the names before them. */
  predicate Climbs(s: string) {
    var stack := Reduce(false, [], Split(s));
    stack != [] && stack[0] == ".."
  }

  lemma {:induction false} NoLaterUp(stack: seq<string>, i: nat)
    requires Normal(false, stack) && i < |stack| && stack[0] != ".."
    ensures stack[i] != ".."
  {
    if i > 0 { NoLaterUp(stack, i - 1); }
  }

  /** A walk that does not climb only goes down, from anywhere. */
  lemma StraightWalk(base: Path, s: string)
    requires !Climbs(s)
    ensures Walk(base, s) == base + Walk([], s)
  {
    var stack := Reduce(false, [], Split(s));
    SplitHasNoSlash(s);
    ReduceNormal(false, [], Split(s));
    WalkReduced(base, Split(s));
    WalkReduced([], Split(s));
    forall i | 0 <= i < |stack| ensures stack[i] != ".." { NoLaterUp(stack, i); }
    ReduceDown(base, stack);
  }

  /** A walk that climbs first goes one up. */
  lemma FirstStepUp(base: Path, s: string)
    requires Climbs(s)
    ensures var rest := Reduce(false, [], Split(s))[1..];
            Walk(base, s) == Reduce(true, if base == [] then [] else Parent(base), rest)
  {
    var stack := Reduce(false, [], Split(s));
    SplitHasNoSlash(s);
    ReduceNormal(false, [], Split(s));
    WalkReduced(base, Split(s));
    ReduceConcat(true, base, stack[..1], stack[1..]);
    assert stack == stack[..1] + stack[1..] && stack[..1][..0] == [];
    assert Reduce(true, base, stack[..1][..0]) == base;
  }

  lemma {:induction false} ShorterWalk(base: Path, pieces: seq<string>)
    requires NoSlash(pieces)
    ensures |Reduce(true, base, pieces)| <= |base| + |Reduce(true, [], pieces)|
    ensures |Reduce(true, base, pieces)| >= |base| - |pieces|
  {
    if pieces != [] {
      ShorterWalk(base, pieces[..|pieces| - 1]);
      ReduceNormal(true, base, pieces[..|pieces| - 1]);
      ReduceNormal(true, [], pieces[..|pieces| - 1]);
    }
  }

  /** A walk that climbs ends higher than a walk that only goes down would. */
  lemma ClimbingWalk(base: Path, s: string)
    requires Climbs(s) && base != []
    ensures |Walk(base, s)| < |base| + |Walk([], s)|
  {
    FirstStepUp(base, s);
    FirstStepUp([], s);
    var stack := Reduce(false, [], Split(s));
    SplitHasNoSlash(s);
    ReduceNormal(false, [], Split(s));
    ShorterWalk(Parent(base), stack[1..]);
  }

  /** Standing below is walking exactly for strings that are not rooted or do not climb, and at the top. */
  lemma BelowIsWalkExactly(base: Path, s: string)
    ensures Below(base, s) == Walk(base, s) <==> !Rooted(s) || !Climbs(s) || base == []
  {
    if Rooted(s) {
      if base == [] {
        assert [] + Walk([], s) == Walk([], s);
      } else if Climbs(s) {
        ClimbingWalk(base, s);
      } else {
        StraightWalk(base, s);
      }
    }
  }

  // ---------- Staying under the root ----------

  /** Somewhere, a climb and whatever follows it leaves the root. */
  lemma ClimbLeaves(s: string, tail: Path) returns (n: Name)
    requires Climbs(s)
    ensures !([n] <= Walk([n], s) + tail)
  {
    var end := Reduce(true, [], Reduce(false, [], Split(s))[1..]) + tail;
    n := if end != [] && end[0] == "a" then "b" else "a";
    FirstStepUp([n], s);
  }

  /** What must not climb, given the chroot: nothing if that is rooted, else all that is walked from the root. */
  predicate Confined(chrootAt: string, name: string) {
    if chrootAt == "" then Rooted(name) || !Climbs(name)
    else if Rooted(chrootAt) then true
    else if Rooted(name) then !Climbs(chrootAt)
    else !Climbs(chrootAt + "/" + name)
  }

  /** Under a given chroot, a name stays under every root exactly when it is confined. */
  lemma StaysUnderEveryRootExactly(chrootAt: string, name: string)
    ensures (forall r: Path :: r <= NfsPath(r, chrootAt, name)) <==> Confined(chrootAt, name)
  {
    if Confined(chrootAt, name) {
      forall r: Path ensures r <= NfsPath(r, chrootAt, name) { ConfinedStays(r, chrootAt, name); }
    } else {
      var r := UnconfinedLeaves(chrootAt, name);
      assert !(r <= NfsPath(r, chrootAt, name));
    }
  }

  lemma ConfinedStays(r: Path, chrootAt: string, name: string)
    requires Confined(chrootAt, name)
    ensures r <= NfsPath(r, chrootAt, name)
  {
    if chrootAt == "" {
      if !Rooted(name) { StraightWalk(r, name); }
    } else if !Rooted(chrootAt) {
      if Rooted(name) {
        StraightWalk(r, chrootAt);
      } else {
        WalkSlash(r, chrootAt, name);
        StraightWalk(r, chrootAt + "/" + name);
      }
    }
  }

  lemma UnconfinedLeaves(chrootAt: string, name: string) returns (r: Path)
    requires !Confined(chrootAt, name)
    ensures !(r <= NfsPath(r, chrootAt, name))
  {
    var climb := if chrootAt == "" then name else if Rooted(name) then chrootAt else chrootAt + "/" + name;
    var tail: Path := if chrootAt != "" && Rooted(name) then Resolve(name) else [];
    var n := ClimbLeaves(climb, tail);
    r := [n];
    WalkSlash(r, chrootAt, name);
    assert Walk(r, climb) + [] == Walk(r, climb);
  }

  /** ".." in a relative name does leave the root; in a rooted one it does not. */
  lemma DotDotLeaves(r: Path)
    requires r != []
    ensures NfsAbs(TrimSlashes(Render(r)), "", "..") == Render(Parent(r))
    ensures NfsAbs(TrimSlashes(Render(r)), "", "/..") == Render(r)
  {
    NfsAbsIs(r, "", "..");
    WalkPlain(r, "..");
    NfsAbsIs(r, "", "/..");
    WalkSlash([], "", "..");
    WalkNowhere([]);
    WalkPlain([], "..");
    assert "" + "/" + ".." == "/..";
    assert r + [] == r;
  }

  lemma SlashName(n: Name)
    ensures Resolve("/" + n) == [n]
  {
    assert "/" + n == "" + "/" + n;
    WalkSlash([], "", n);
    WalkNowhere([]);
    WalkPlain([], n);
  }

  /** Below the chroot "..", even a rooted name stands outside the root. */
  lemma {:induction false} ChrootLeaves(r: Path, n: Name)
    requires r != []
    ensures NfsAbs(TrimSlashes(Render(r)), Chroot("", ".."), "/" + n) == Render(Parent(r) + [n])
  {
    NfsAbsIs(r, Chroot("", ".."), "/" + n);
    WalkClean(r, "..");
    WalkPlain(r, "..");
    SlashName(n);
  }

  // ---------- Nested chroots ----------

  /** Cleaning a chroot or a name changes nothing. */
  lemma NfsPathClean(r: Path, chrootAt: string, name: string)
    ensures NfsPath(r, chrootAt, Clean(name)) == NfsPath(r, chrootAt, name)
    ensures chrootAt != "" ==> NfsPath(r, Clean(chrootAt), name) == NfsPath(r, chrootAt, name)
  {
    var base := if chrootAt == "" then r else if Rooted(chrootAt) then Resolve(chrootAt) else Walk(r, chrootAt);
    BelowClean(base, name);
    WalkClean(r, chrootAt);
    WalkClean([], chrootAt);
    if Rooted(chrootAt) { assert [] + Resolve(chrootAt) == Resolve(chrootAt); }
  }

  /** Where a name stands below a sub-chroot of a chroot that stands at `base`. */
  function InSub(base: Path, sub: string, name: string): Path {
    Below(Walk(base, sub), name)
  }

  /** Where the joined name stands below the chroot. */
  function InJoined(base: Path, sub: string, name: string): Path {
    Below(base, sub + "/" + name)
  }

  /** The place that names are walked from, and what comes before it. */
  function ChrootBase(r: Path, chrootAt: string): (Path, Path) {
    if chrootAt == "" then ([], r) else if Rooted(chrootAt) then (r, Resolve(chrootAt)) else ([], Walk(r, chrootAt))
  }

  lemma {:induction false} JoinedBelow(base: Path, sub: string, name: string)
    requires sub != ""
    ensures Below(base, Join(sub, name)) == InJoined(base, sub, name)
  {
    if name == "" {
      WalkSlash(base, sub, "");
      WalkSlash([], sub, "");
      WalkNowhere(Walk(base, sub));
      WalkNowhere(Walk([], sub));
      BelowClean(base, sub);
    } else {
      BelowClean(base, sub + "/" + name);
    }
  }

  lemma {:induction false} JoinedStands(r: Path, chrootAt: string, sub: string, name: string)
    requires sub != ""
    ensures var (top, base) := ChrootBase(r, chrootAt);
            NfsPath(r, chrootAt, Join(sub, name)) == top + InJoined(base, sub, name)
  {
    var (top, base) := ChrootBase(r, chrootAt);
    JoinedBelow(base, sub, name);
    assert [] + InJoined(base, sub, name) == InJoined(base, sub, name);
  }

  lemma SubStands(r: Path, chrootAt: string, sub: string, name: string)
    requires sub != ""
    ensures chrootAt != "" ==>
              var (top, base) := ChrootBase(r, chrootAt);
              NfsPath(r, Join(chrootAt, sub), name) == top + InSub(base, sub, name)
    ensures chrootAt == "" ==> NfsPath(r, Join(chrootAt, sub), name) == NfsPath(r, sub, name)
  {
    var (top, base) := ChrootBase(r, chrootAt);
    if chrootAt == "" {
      NfsPathClean(r, sub, name);
    } else {
      NfsPathClean(r, chrootAt + "/" + sub, name);
      WalkSlash(if Rooted(chrootAt) then [] else r, chrootAt, sub);
      assert [] + InSub(base, sub, name) == InSub(base, sub, name);
    }
  }

  /** The two agree wherever the chroot stands, and at the top. */
  ghost predicate SamePlaces(sub: string, name: string) {
    && (forall base: Path :: InSub(base, sub, name) == InJoined(base, sub, name))
    && (forall r: Path :: NfsPath(r, sub, name) == InJoined(r, sub, name))
  }

  /** For a relative sub-chroot a rooted name must not climb; with a rooted one nothing at all may. */
  predicate Composes(sub: string, name: string) {
    || sub == ""
    || if !Rooted(sub) then !Rooted(name) || !Climbs(name)
       else if !Rooted(name) then !Climbs(sub + "/" + name)
       else !Climbs(sub) && (Resolve(sub) == [] || !Climbs(name))
  }

  /** A path so long that a walk from it does not reach the top. */
  lemma FarFromTop(s: string) returns (base: Path)
    ensures Walk(base, s) != []
  {
    SplitHasNoSlash(s);
    base := seq(|Split(s)| + 1, i => "a");
    ShorterWalk(base, Split(s));
  }

  lemma RelativeSub(sub: string, name: string)
    requires sub != "" && !Rooted(sub)
    ensures SamePlaces(sub, name) <==> Composes(sub, name)
  {
    forall base: Path
      ensures InSub(base, sub, name) == InJoined(base, sub, name) <==>
              !Rooted(name) || !Climbs(name) || Walk(base, sub) == []
      ensures NfsPath(base, sub, name) == InSub(base, sub, name)
    {
      WalkSlash(base, sub, name);
      BelowIsWalkExactly(Walk(base, sub), name);
    }
    var far := FarFromTop(sub);
  }

  lemma RootedSub(sub: string, name: string)
    requires Rooted(sub)
    ensures SamePlaces(sub, name) <==> Composes(sub, name)
  {
    var at := Resolve(sub);
    forall r: Path ensures NfsPath(r, sub, name) == InJoined(r, sub, name) <==> Below(at, name) == Walk(at, name) {
      WalkSlash([], sub, name);
      Cancel(r, Below(at, name), Walk(at, name));
    }
    BelowIsWalkExactly(at, name);
    if Rooted(name) && Climbs(name) && at != [] {
      assert NfsPath([], sub, name) != InJoined([], sub, name);
    } else {
      forall base: Path
        ensures InSub(base, sub, name) == InJoined(base, sub, name) <==> RootedSubAgrees(base, sub, name)
      {
        RootedSubAt(base, sub, name);
      }
      RootedSubEverywhere(sub, name);
    }
  }

  /** The place of a rooted sub-chroot, or of the joined name, is what a walk straight down would reach. */
  predicate RootedSubAgrees(base: Path, sub: string, name: string) {
    if Rooted(name) then Walk(base, sub) == base + Walk([], sub)
    else Walk(base, sub + "/" + name) == base + Walk([], sub + "/" + name)
  }

  lemma RootedSubAt(base: Path, sub: string, name: string)
    requires Rooted(sub) && (Rooted(name) ==> !Climbs(name) || Resolve(sub) == [])
    ensures InSub(base, sub, name) == InJoined(base, sub, name) <==> RootedSubAgrees(base, sub, name)
  {
    WalkSlash(base, sub, name);
    WalkSlash([], sub, name);
    if Rooted(name) {
      BelowIsWalkExactly(Resolve(sub), name);
      AppendAssoc(base, Resolve(sub), Resolve(name));
      CancelRight(Walk(base, sub), base + Resolve(sub), Resolve(name));
    }
  }

  lemma RootedSubEverywhere(sub: string, name: string)
    ensures (forall base: Path :: RootedSubAgrees(base, sub, name)) <==>
            if Rooted(name) then !Climbs(sub) else !Climbs(sub + "/" + name)
  {
    var walked := if Rooted(name) then sub else sub + "/" + name;
    if Climbs(walked) {
      ClimbingWalk(["a"], walked);
      assert !RootedSubAgrees(["a"], sub, name);
    } else {
      forall base: Path ensures RootedSubAgrees(base, sub, name) { StraightWalk(base, walked); }
    }
  }

  lemma Cancel<T>(a: seq<T>, b: seq<T>, c: seq<T>)
    ensures a + b == a + c <==> b == c
  {
    assert b == (a + b)[|a|..] && c == (a + c)[|a|..];
  }

  lemma CancelRight<T>(a: seq<T>, b: seq<T>, c: seq<T>)
    ensures a + c == b + c <==> a == b
  {
    if a + c == b + c {
      assert |a| == |a + c| - |c| == |b|;
      assert a == (a + c)[..|a|] && b == (b + c)[..|b|];
    }
  }

  /** The chroot nested in the chroot and the joined name lead to the same remote path. */
  predicate SameRemote(r: Path, chrootAt: string, sub: string, name: string) {
    var root := TrimSlashes(Render(r));
    NfsAbs(root, Chroot(chrootAt, sub), name) == NfsAbs(root, chrootAt, Join(sub, name))
  }

  lemma SameRemoteIs(r: Path, chrootAt: string, sub: string, name: string)
    ensures SameRemote(r, chrootAt, sub, name) <==>
            NfsPath(r, Join(chrootAt, sub), name) == NfsPath(r, chrootAt, Join(sub, name))
  {
    NfsAbsIs(r, Chroot(chrootAt, sub), name);
    NfsAbsIs(r, chrootAt, Join(sub, name));
    RenderInjective(NfsPath(r, Join(chrootAt, sub), name), NfsPath(r, chrootAt, Join(sub, name)));
  }

  lemma EmptySub(r: Path, chrootAt: string, name: string)
    ensures SameRemote(r, chrootAt, "", name)
  {
    SameRemoteIs(r, chrootAt, "", name);
    NfsPathClean(r, chrootAt, name);
  }

  lemma {:induction false} SameRemoteTop(r: Path, sub: string, name: string)
    requires sub != ""
    ensures SameRemote(r, "", sub, name) <==> NfsPath(r, sub, name) == InJoined(r, sub, name)
  {
    SameRemoteIs(r, "", sub, name);
    SubStands(r, "", sub, name);
    JoinedStands(r, "", sub, name);
    assert [] + InJoined(r, sub, name) == InJoined(r, sub, name);
  }

  /** Below a chroot that is not empty, the question is about the place it stands at. */
  lemma {:induction false} SameRemoteAt(r: Path, chrootAt: string, sub: string, name: string)
    requires sub != "" && chrootAt != ""
    ensures var base := ChrootBase(r, chrootAt).1;
            SameRemote(r, chrootAt, sub, name) <==> InSub(base, sub, name) == InJoined(base, sub, name)
  {
    var (top, base) := ChrootBase(r, chrootAt);
    SameRemoteIs(r, chrootAt, sub, name);
    SubStands(r, chrootAt, sub, name);
    JoinedStands(r, chrootAt, sub, name);
    Cancel(top, InSub(base, sub, name), InJoined(base, sub, name));
  }

  /** Every place is that of some chroot: "." stands at the root itself. */
  lemma EveryPlace(sub: string, name: string)
    requires sub != ""
    ensures SamePlaces(sub, name) <==> forall r: Path, chrootAt: string :: SameRemote(r, chrootAt, sub, name)
  {
    if SamePlaces(sub, name) {
      forall r: Path, chrootAt: string ensures SameRemote(r, chrootAt, sub, name) {
        if chrootAt == "" { SameRemoteTop(r, sub, name); } else { SameRemoteAt(r, chrootAt, sub, name); }
      }
    }
    if forall r: Path, chrootAt: string :: SameRemote(r, chrootAt, sub, name) {
      forall r: Path
        ensures InSub(r, sub, name) == InJoined(r, sub, name) && NfsPath(r, sub, name) == InJoined(r, sub, name)
      {
        assert SameRemote(r, "", sub, name) && SameRemote(r, ".", sub, name);
        SameRemoteTop(r, sub, name);
        SameRemoteAt(r, ".", sub, name);
        WalkNowhere(r);
      }
    }
  }

  /** Under every root and chroot, Chroot composes with naming exactly when no ".." climbs out of a rooted part. */
  lemma ChrootComposesExactly(sub: string, name: string)
    ensures (forall r: Path, chrootAt: string :: SameRemote(r, chrootAt, sub, name)) <==> Composes(sub, name)
  {
    if sub == "" {
      forall r: Path, chrootAt: string ensures SameRemote(r, chrootAt, sub, name) { EmptySub(r, chrootAt, name); }
    } else {
      if Rooted(sub) { RootedSub(sub, name); } else { RelativeSub(sub, name); }
      EveryPlace(sub, name);
    }
  }

  lemma {:induction false} Blanks(blanks: seq<string>)
    requires forall i | 0 <= i < |blanks| :: blanks[i] == ""
    ensures Reduce(false, [], blanks) == []
  {
    if blanks != [] { Blanks(blanks[..|blanks| - 1]); }
  }

  lemma ClimbsAfterSlashes(s: string, blanks: seq<string>)
    requires Split(s) == blanks + [".."] && forall i | 0 <= i < |blanks| :: blanks[i] == ""
    ensures Climbs(s)
  {
    Blanks(blanks);
    assert (blanks + [".."])[..|blanks|] == blanks;
  }

  lemma SlashClimbs(s: string, blanks: seq<string>)
    requires Split(s) == blanks + [".."] && forall i | 0 <= i < |blanks| :: blanks[i] == ""
    ensures Split("/" + s) == [""] + blanks + [".."] && Climbs("/" + s)
  {
    assert ("/" + s)[1..] == s;
    assert [""] + (blanks + [".."]) == [""] + blanks + [".."];
    ClimbsAfterSlashes("/" + s, [""] + blanks);
  }

  lemma {:induction false} OneSlashUp(up: string)
    requires up == ".."
    ensures Split("/" + up) == [""] + [".."] && Climbs("/" + up)
  {
    SplitPlain(up);
    var none: seq<string> := [];
    assert Split(up) == none + [".."];
    SlashClimbs(up, none);
    assert [""] + none == [""];
  }

  lemma {:induction false} TwoSlashesUp(s: string)
    requires Split(s) == [""] + [".."]
    ensures Climbs("/" + s)
  {
    SlashClimbs(s, [""]);
  }

  lemma {:induction false} SomeClimbs(up: string)
    requires up == ".."
    ensures Climbs("/" + up) && Climbs("/" + "/" + up)
  {
    OneSlashUp(up);
    TwoSlashesUp("/" + up);
    AppendAssoc("/", "/", up);
  }

  /** Failing cases: a name that climbs out of a rooted sub-chroot, a rooted name that climbs below a relative one. */
  lemma ChrootEscapes(n: Name, up: string)
    requires up == ".."
    ensures exists r: Path, chrootAt: string :: !SameRemote(r, chrootAt, "/", up)
    ensures exists r: Path, chrootAt: string :: !SameRemote(r, chrootAt, n, "/" + up)
    ensures forall r: Path, chrootAt: string :: SameRemote(r, chrootAt, "", "/" + up)
  {
    SomeClimbs(up);
    ChrootComposesExactly("/", up);
    ChrootComposesExactly(n, "/" + up);
    ChrootComposesExactly("", "/" + up);
  }

  /** The last piece of the name is a real one: no trailing slash, no trailing "." or "..". */
  predicate HasBase(name: string) {
    Last(name) != "" && Last(name) != "." && Last(name) != ".."
  }

  /**
   The listing key that the NFS backend invalidates, abs(Dir(name)), is the parent of the name's own
   key exactly when the name ends in a real piece; so not for "a/" or "a/.".
   */
  lemma {:induction false} ParentKeyExactly(r: Path, chrootAt: string, name: string)
    requires NfsPath(r, chrootAt, name) != []
    ensures var root := TrimSlashes(Render(r));
            NfsAbs(root, chrootAt, Dir(name)) == Dir(NfsAbs(root, chrootAt, name)) <==> HasBase(name)
  {
    var key := NfsPath(r, chrootAt, name);
    NfsAbsIs(r, chrootAt, name);
    NfsAbsIs(r, chrootAt, Dir(name));
    DirOfRender(key);
    SplitHasNoSlash(name);
    var top, up := NfsPathDir(r, chrootAt, name);
    ParentOfPush(top, up, Last(name));
    RenderInjective(NfsPath(r, chrootAt, Dir(name)), Parent(key));
  }

  lemma NfsPathDir(r: Path, chrootAt: string, name: string) returns (top: Path, up: Path)
    ensures NfsPath(r, chrootAt, Dir(name)) == top + up
    ensures NfsPath(r, chrootAt, name) == top + Push(true, up, Last(name))
  {
    var base := if chrootAt == "" then r else if Rooted(chrootAt) then Resolve(chrootAt) else Walk(r, chrootAt);
    top, up := BelowDir(base, name);
    if chrootAt != "" && Rooted(chrootAt) {
      AppendAssoc(r, top, up);
      AppendAssoc(r, top, Push(true, up, Last(name)));
      top := r + top;
    }
  }

  lemma ParentOfPush(top: Path, up: Path, last: string)
    requires '/' !in last && top + Push(true, up, last) != []
    ensures var pushed: seq<string> := top + Push(true, up, last);
            top + up == pushed[..|pushed| - 1] <==> last != "" && last != "." && last != ".."
  {
    var pushed: seq<string> := top + Push(true, up, last);
    if last == "" || last == "." || last == ".." {
      assert |top + up| > |pushed| - 1;
    } else {
      assert pushed[..|pushed| - 1] == top + up;
    }
  }

  lemma TrailingSlash(r: Path, base: Name)
    ensures var root := TrimSlashes(Render(r));
            NfsAbs(root, "", base + "/") == NfsAbs(root, "", Dir(base + "/")) == Render(r + [base])
  {
    var name := base + "/";
    assert name == base + "/" + "";
    NfsAbsIs(r, "", name);
    NfsAbsIs(r, "", Dir(name));
    var top, up := BelowDir(r, name);
    SplitSlash(base, "");
    SplitPlain(base);
    WalkSlash(r, base, "");
    WalkPlain(r, base);
    WalkNowhere(r + [base]);
  }
}
