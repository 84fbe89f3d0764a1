/**
 The remote file tree, its answers to Stat and ReadDir, the operations on it, and the cache keys
 that an operation can make stale.
 */
module Tree {
  import opened Wrappers
  import opened Paths

  /** Directories carry no size or time: the source never refreshes those of a parent. */
  datatype Node = FileNode(size: nat, mtime: int) | DirNode

  datatype Kind = FileKind | DirKind

  type Tree = map<Path, Node>

  function KindOf(n: Node): Kind {
    if n.FileNode? then FileKind else DirKind
  }

  predicate IsDir(t: Tree, p: Path) {
    p in t && t[p].DirNode?
  }

  predicate ChildOf(q: Path, p: Path) {
    q != [] && Parent(q) == p
  }

  /** Stat and ReadDir; None stands for an error, which is never cached. */
  datatype Query = Stat | List

  datatype Answer = Node(node: Node) | Listing(entries: set<(Name, Kind)>)

  function Ask(t: Tree, query: Query, p: Path): Option<Answer> {
    if query.Stat? then if p in t then Some(Node(t[p])) else None
    else if IsDir(t, p) then Some(Listing(set q | q in t && ChildOf(q, p) :: (q[|p|], KindOf(t[q]))))
    else None
  }

  // ---------- Operations ----------

  datatype Op =
    | Write(p: Path, size: nat, mtime: int, create: bool, overwrite: bool)
    | Mkdir(p: Path)
    | Delete(p: Path, recursive: bool)
    | Rename(from: Path, to: Path, overwrite: bool)

  /** The paths that an operation, and the change events about it, name. */
  function Touched(op: Op): seq<Path> {
    match op
    case Rename(from, to, _) => [from, to]
    case _ => [op.p]
  }

  function Without(t: Tree, p: Path): Tree {
    map q | q in t && !(p <= q) :: t[q]
  }

  function Move(q: Path, from: Path, to: Path): Path
    requires from <= q
  {
    to + q[|from|..]
  }

  function Moved(t: Tree, from: Path, to: Path): Tree {
    var rest := Without(Without(t, from), to);
    var targets := set q | q in t && from <= q :: Move(q, from, to);
    assert forall q | q in targets :: to <= q && Move(q, to, from) in t by { TargetsCome(t, from, to); }
    map q | q in rest.Keys + targets :: if to <= q then t[Move(q, to, from)] else t[q]
  }

  lemma MoveBack(q: Path, from: Path, to: Path)
    requires from <= q
    ensures to <= Move(q, from, to) && Move(Move(q, from, to), to, from) == q
  {
    assert q == from + q[|from|..];
  }

  lemma TargetsCome(t: Tree, from: Path, to: Path)
    ensures forall q | q in t && from <= q :: to <= Move(q, from, to) && Move(Move(q, from, to), to, from) == q
  {
    forall q | q in t && from <= q ensures to <= Move(q, from, to) && Move(Move(q, from, to), to, from) == q {
      MoveBack(q, from, to);
    }
  }

  /** A rename carries the whole subtree over, leaving nothing behind and keeping nothing of its target. */
  lemma RenameMovesSubtree(t: Tree, from: Path, to: Path, overwrite: bool, s: Path)
    requires Apply(t, Rename(from, to, overwrite)).Some?
    ensures var t' := Apply(t, Rename(from, to, overwrite)).value;
            && (to + s in t' <==> from + s in t)
            && (from + s in t ==> t'[to + s] == t[from + s])
            && from + s !in t'
  {
    TargetsCome(t, from, to);
    assert (from + s)[|from|..] == s && (to + s)[|to|..] == s;
    assert Move(from + s, from, to) == to + s && Move(to + s, to, from) == from + s;
  }

  /** The tree after the operation, or None where the remote refuses it. */
  function Apply(t: Tree, op: Op): Option<Tree> {
    match op
    case Write(p, size, mtime, create, overwrite) =>
      if p == [] || !IsDir(t, Parent(p)) || IsDir(t, p) || !(if p in t then overwrite else create) then None
      else Some(t[p := FileNode(size, mtime)])
    case Mkdir(p) =>
      if p == [] || !IsDir(t, Parent(p)) || p in t then None else Some(t[p := DirNode])
    case Delete(p, recursive) =>
      if p == [] || p !in t || !(recursive || forall q | q in t :: !(p < q)) then None else Some(Without(t, p))
    case Rename(from, to, overwrite) =>
      if from == [] || to == [] || from !in t || !IsDir(t, Parent(to)) || from <= to || to <= from
         || (to in t && !overwrite)
      then None else Some(Moved(t, from, to))
  }

  // ---------- What an operation can change ----------

  /** A change at `p` concerns the stat of `p` and everything below, and their listings and the parent's. */
  predicate Concerns(p: Path, query: Query, q: Path) {
    p <= q || (query.List? && ChildOf(p, q))
  }

  predicate ConcernsAny(ps: seq<Path>, query: Query, q: Path) {
    exists i | 0 <= i < |ps| :: Concerns(ps[i], query, q)
  }

  /** Outside `ps` and what lies below them, the trees agree. */
  ghost predicate AgreeOutside(t: Tree, t': Tree, ps: seq<Path>) {
    forall q | q in t || q in t' :: (forall i | 0 <= i < |ps| :: !(ps[i] <= q)) ==> q in t && q in t' && t[q] == t'[q]
  }

  lemma ApplyAgrees(t: Tree, op: Op)
    requires Apply(t, op).Some?
    ensures AgreeOutside(t, Apply(t, op).value, Touched(op))
    ensures forall p <- Touched(op) :: p != []
  {
    var t', ps := Apply(t, op).value, Touched(op);
    forall q | (q in t || q in t') && forall i | 0 <= i < |ps| :: !(ps[i] <= q)
      ensures q in t && q in t' && t[q] == t'[q]
    {
      assert !(ps[0] <= q);
      if op.Rename? {
        assert !(ps[1] <= q);
      }
    }
  }

  lemma {:induction false} SameListing(t: Tree, t': Tree, ps: seq<Path>, p: Path)
    requires AgreeOutside(t, t', ps) && !ConcernsAny(ps, List, p)
    requires forall r <- ps :: r != []
    ensures Ask(t, List, p) == Ask(t', List, p)
  {
    forall i | 0 <= i < |ps| ensures !(ps[i] <= p) { assert !Concerns(ps[i], List, p); }
    forall q | (q in t || q in t') && ChildOf(q, p)
      ensures q in t && q in t' && t[q] == t'[q]
    {
      forall i | 0 <= i < |ps| ensures !(ps[i] <= q) {
        assert !Concerns(ps[i], List, p);
      }
    }
    var before := set q | q in t && ChildOf(q, p) :: (q[|p|], KindOf(t[q]));
    var after := set q | q in t' && ChildOf(q, p) :: (q[|p|], KindOf(t'[q]));
    assert before == after;
  }

  /** An operation changes no answer but those that concern a path it names. */
  lemma FootprintAdequate(t: Tree, op: Op, query: Query, q: Path)
    requires Apply(t, op).Some? && !ConcernsAny(Touched(op), query, q)
    ensures Ask(Apply(t, op).value, query, q) == Ask(t, query, q)
  {
    var t', ps := Apply(t, op).value, Touched(op);
    ApplyAgrees(t, op);
    if query.List? {
      SameListing(t, t', ps, q);
    } else {
      forall i | 0 <= i < |ps| ensures !(ps[i] <= q) { assert !Concerns(ps[i], query, q); }
    }
  }

  // ---------- Cache keys and invalidations ----------

  /** A key of the stat cache or of the listing cache. */
  datatype Key = Key(query: Query, name: string)

  function KeyOf(query: Query, p: Path): Key {
    Key(query, Render(p))
  }

  /** One critical section of a cache: Invalidate of a key, or InvalidatePrefix. */
  datatype Inval = One(key: Key) | Prefixed(query: Query, prefix: string)

  predicate Covers(i: Inval, k: Key) {
    match i
    case One(key) => key == k
    case Prefixed(query, prefix) => query == k.query && prefix <= k.name
  }

  /** invalidatePath, in the order of the source. */
  function InvalidatePath(p: string): seq<Inval> {
    [One(Key(Stat, p)), Prefixed(Stat, p + "/"), One(Key(List, p)), One(Key(List, Dir(p))), Prefixed(List, p + "/")]
  }

  /** The invalidations for one named path after another, as a batch of change events causes them. */
  function InvalidateEach(names: seq<string>): seq<Inval> {
    if names == [] then [] else InvalidateEach(names[..|names| - 1]) + InvalidatePath(names[|names| - 1])
  }

  /** A batch covers exactly what one of its names covers. */
  lemma {:induction false} BatchCoversExactly(names: seq<string>, k: Key)
    ensures CoversAny(InvalidateEach(names), k) <==>
            exists i | 0 <= i < |names| :: CoversAny(InvalidatePath(names[i]), k)
    decreases |names|
  {
    if names != [] {
      var n := |names| - 1;
      BatchCoversExactly(names[..n], k);
      CoversAnyConcat(InvalidateEach(names[..n]), InvalidatePath(names[n]), k);
      if CoversAny(InvalidateEach(names[..n]), k) {
        var i :| 0 <= i < n && CoversAny(InvalidatePath(names[..n][i]), k);
        assert names[i] == names[..n][i];
      }
      forall i | 0 <= i < n && CoversAny(InvalidatePath(names[i]), k)
        ensures CoversAny(InvalidateEach(names[..n]), k)
      {
        assert names[..n][i] == names[i];
      }
    }
  }

  /** The invalidations that an operation makes due, whether by its caller or by events naming its paths. */
  function InvalidationsOf(op: Op): seq<Inval> {
    match op
    case Rename(from, to, _) => InvalidatePath(Render(from)) + InvalidatePath(Render(to))
    case _ => InvalidatePath(Render(op.p))
  }

  predicate CoversAny(work: seq<Inval>, k: Key) {
    exists n | 0 <= n < |work| :: Covers(work[n], k)
  }

  lemma CoversAnyConcat(a: seq<Inval>, b: seq<Inval>, k: Key)
    ensures CoversAny(a + b, k) <==> CoversAny(a, k) || CoversAny(b, k)
  {
    if CoversAny(a, k) {
      var n :| 0 <= n < |a| && Covers(a[n], k);
      assert (a + b)[n] == a[n];
    }
    if CoversAny(b, k) {
      var n :| 0 <= n < |b| && Covers(b[n], k);
      assert (a + b)[|a| + n] == b[n];
    }
  }

  lemma CoversAnyCons(work: seq<Inval>, k: Key)
    requires work != []
    ensures CoversAny(work, k) <==> Covers(work[0], k) || CoversAny(work[1..], k)
  {
    assert work == work[..1] + work[1..];
    CoversAnyConcat(work[..1], work[1..], k);
    assert CoversAny(work[..1], k) <==> Covers(work[..1][0], k);
  }

  lemma CoversAnyOfPath(p: string, k: Key)
    ensures CoversAny(InvalidatePath(p), k) <==>
            k.name == p || p + "/" <= k.name || (k.query.List? && k.name == Dir(p))
  {
    var work := InvalidatePath(p);
    assert k == Key(k.query, k.name);
    assert if k.query.Stat? then Covers(work[0], k) <==> k.name == p else Covers(work[2], k) <==> k.name == p;
    assert if k.query.Stat? then Covers(work[1], k) <==> p + "/" <= k.name
           else Covers(work[4], k) <==> p + "/" <= k.name;
    assert Covers(work[3], k) <==> k.query.List? && k.name == Dir(p);
  }

  /**
   The string operations of invalidatePath remove exactly the keys that a change at `p` concerns:
   no sibling whose name merely starts alike, and not the parent's stat.
   */
  lemma InvalidatePathExactly(p: Path, query: Query, q: Path)
    requires p != []
    ensures CoversAny(InvalidatePath(Render(p)), KeyOf(query, q)) <==> Concerns(p, query, q)
  {
    CoversAnyOfPath(Render(p), KeyOf(query, q));
    RenderInjective(q, p);
    PrefixExactly(p, q);
    DirOfRender(p);
    RenderInjective(q, Parent(p));
  }

  /** A change at the root is the exception: it removes the root's own keys and nothing below. */
  lemma RootInvalidation(query: Query, q: Path)
    ensures CoversAny(InvalidatePath(Render([])), KeyOf(query, q)) <==> q == []
  {
    CoversAnyOfPath(Render([]), KeyOf(query, q));
    RenderInjective(q, []);
    RootHasNoPrefix(q);
    DirOfRender([]);
  }

  /** So invalidatePath covers everything a change at `p` concerns exactly when `p` is not the root. */
  lemma CoverageExactly(p: Path)
    ensures (forall query, q :: Concerns(p, query, q) ==> CoversAny(InvalidatePath(Render(p)), KeyOf(query, q)))
            <==> p != []
  {
    if p == [] {
      RootInvalidation(Stat, ["a"]);
      assert Concerns(p, Stat, ["a"]);
    } else {
      forall query, q | Concerns(p, query, q) ensures CoversAny(InvalidatePath(Render(p)), KeyOf(query, q)) {
        InvalidatePathExactly(p, query, q);
      }
    }
  }

  /** A batch of change events that name the paths of an operation causes these. */
  lemma EventsInvalidate(op: Op)
    ensures InvalidationsOf(op) ==
            InvalidateEach(if op.Rename? then [Render(op.from), Render(op.to)] else [Render(op.p)])
  {
    var first := Render(Touched(op)[0]);
    assert [first][..0] == [] && InvalidateEach([first]) == InvalidatePath(first);
    if op.Rename? {
      assert [first, Render(op.to)][..1] == [first];
    }
  }

  lemma ConcernsAnyOf(op: Op, query: Query, q: Path)
    ensures ConcernsAny(Touched(op), query, q) <==>
            if op.Rename? then Concerns(op.from, query, q) || Concerns(op.to, query, q) else Concerns(op.p, query, q)
  {
    var ps := Touched(op);
    if Concerns(ps[0], query, q) || (|ps| > 1 && Concerns(ps[1], query, q)) { assert ConcernsAny(ps, query, q); }
  }

  /** What a successful operation makes due covers exactly the keys that it concerns. */
  lemma OperationCoversExactly(t: Tree, op: Op, query: Query, q: Path)
    requires Apply(t, op).Some?
    ensures CoversAny(InvalidationsOf(op), KeyOf(query, q)) <==> ConcernsAny(Touched(op), query, q)
  {
    ConcernsAnyOf(op, query, q);
    if op.Rename? {
      InvalidatePathExactly(op.from, query, q);
      InvalidatePathExactly(op.to, query, q);
      CoversAnyConcat(InvalidatePath(Render(op.from)), InvalidatePath(Render(op.to)), KeyOf(query, q));
    } else {
      InvalidatePathExactly(op.p, query, q);
    }
  }
}
