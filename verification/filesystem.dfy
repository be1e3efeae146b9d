/** The filesystem the updater reads and writes, as one immutable tree rooted at "/".
    A directory keeps its entries in an arbitrary order, which the walk follows (`scandir`
    sorts them, one such order); a path string names the node reached by following its
    components from the root. */
module FileSystem {
  import opened Paths

  datatype Option<+T> = None | Some(value: T)

  type Content = seq<bv8>

  datatype Node = File(data: Content) | Dir(entries: seq<Entry>)

  datatype Entry = Entry(name: string, node: Node)

  /** Entry names are valid and distinct in every directory of the tree. */
  predicate WellFormed(n: Node)
    decreases n
  {
    match n
    case File(_) => true
    case Dir(es) =>
      && (forall i, j :: 0 <= i < j < |es| ==> es[i].name != es[j].name)
      && (forall i :: 0 <= i < |es| ==> ValidName(es[i].name) && WellFormed(es[i].node))
  }

  predicate IsDirNode(o: Option<Node>) {
    o.Some? && o.value.Dir?
  }

  predicate IsFileNode(o: Option<Node>) {
    o.Some? && o.value.File?
  }

  /** The first entry called `name`. */
  function Child(es: seq<Entry>, name: string): (r: Option<Node>)
    ensures r.None? <==> forall i :: 0 <= i < |es| ==> es[i].name != name
    ensures r.Some? ==> exists i :: 0 <= i < |es| && es[i] == Entry(name, r.value)
  {
    if es == [] then None
    else if es[0].name == name then Some(es[0].node)
    else
      var r := Child(es[1..], name);
      assert r.Some? ==> exists i :: 0 <= i < |es[1..]| && es[1..][i] == Entry(name, r.value);
      r
  }

  /** Replace the first entry called `name`, or append one if there is none. */
  function Upsert(es: seq<Entry>, name: string, n: Node): seq<Entry> {
    if es == [] then [Entry(name, n)]
    else if es[0].name == name then [Entry(name, n)] + es[1..]
    else [es[0]] + Upsert(es[1..], name, n)
  }

  /** Drop every entry called `name`. */
  function Without(es: seq<Entry>, name: string): seq<Entry> {
    if es == [] then []
    else if es[0].name == name then Without(es[1..], name)
    else [es[0]] + Without(es[1..], name)
  }

  /** The node at the components `q` below `n`. */
  function Get(n: Node, q: seq<string>): Option<Node>
    decreases |q|
  {
    if q == [] then Some(n)
    else
      match n
      case File(_) => None
      case Dir(es) =>
        match Child(es, q[0])
        case None => None
        case Some(c) => Get(c, q[1..])
  }

  /** Every proper prefix of `q` (the empty one, `n` itself, included) names a directory. */
  predicate DirsAbove(n: Node, q: seq<string>)
    decreases |q|
  {
    q == [] || (n.Dir? && (|q| == 1 || (Child(n.entries, q[0]).Some? && DirsAbove(Child(n.entries, q[0]).value, q[1..]))))
  }

  /** Put `v` at `q` (`None` removes the entry); a no-op when a directory above `q` is missing.
      The root itself is never removed. */
  function Set(n: Node, q: seq<string>, v: Option<Node>): Node
    decreases |q|
  {
    if q == [] then (if v.Some? then v.value else n)
    else
      match n
      case File(_) => n
      case Dir(es) =>
        if |q| == 1 then
          (match v
           case Some(m) => Dir(Upsert(es, q[0], m))
           case None => Dir(Without(es, q[0])))
        else
          match Child(es, q[0])
          case None => n
          case Some(c) => Dir(Upsert(es, q[0], Set(c, q[1..], v)))
  }

  /** A chain of empty directories named by `q`. */
  function Chain(q: seq<string>): Node {
    if q == [] then Dir([]) else Dir([Entry(q[0], Chain(q[1..]))])
  }

  /** PHP `mkdir($path, 0755, true)` at the components `q`: fails when something exists at `q`
      or a file stands where a directory above it is needed; creates every missing directory. */
  function MakeDirs(n: Node, q: seq<string>): Option<Node>
    decreases |q|
  {
    if q == [] then None
    else
      match n
      case File(_) => None
      case Dir(es) =>
        match Child(es, q[0])
        case None => Some(Dir(Upsert(es, q[0], Chain(q[1..]))))
        case Some(c) =>
          if |q| == 1 then None
          else
            match MakeDirs(c, q[1..])
            case None => None
            case Some(c') => Some(Dir(Upsert(es, q[0], c')))
  }

  predicate Absolute(p: string) {
    |p| > 0 && p[0] == '/'
  }

  /** What an absolute path names; a relative path names nothing in this model. */
  function Lookup(fs: Node, p: string): Option<Node> {
    if Absolute(p) then Get(fs, Split(p)) else None
  }

  /** PHP `is_dir`. */
  predicate IsDirAt(fs: Node, p: string) {
    IsDirNode(Lookup(fs, p))
  }

  /** PHP `is_file`. */
  predicate IsFileAt(fs: Node, p: string) {
    IsFileNode(Lookup(fs, p))
  }

  // ---------------------------------------------------------------------------
  // Entry-list lemmas

  lemma {:induction false} ChildUpsert(es: seq<Entry>, x: string, m: Node, y: string)
    ensures Child(Upsert(es, x, m), y) == if y == x then Some(m) else Child(es, y)
    decreases |es|
  {
    if es != [] && es[0].name != x {
      ChildUpsert(es[1..], x, m, y);
      assert Upsert(es, x, m)[1..] == Upsert(es[1..], x, m);
    } else if es != [] {
      assert Upsert(es, x, m)[1..] == es[1..];
    }
  }

  lemma {:induction false} ChildWithout(es: seq<Entry>, x: string, y: string)
    ensures Child(Without(es, x), y) == if y == x then None else Child(es, y)
    decreases |es|
  {
    if es != [] {
      ChildWithout(es[1..], x, y);
      if es[0].name != x {
        assert Without(es, x)[1..] == Without(es[1..], x);
      }
    }
  }

  /** One step of `Get` into a directory. */
  lemma GetDir(es: seq<Entry>, r: seq<string>)
    requires r != []
    ensures Get(Dir(es), r) == match Child(es, r[0]) case None => None case Some(c) => Get(c, r[1..])
  {
  }

  lemma UpsertNames(es: seq<Entry>, x: string, m: Node)
    requires forall i, j :: 0 <= i < j < |es| ==> es[i].name != es[j].name
    ensures forall i, j :: 0 <= i < j < |Upsert(es, x, m)| ==> Upsert(es, x, m)[i].name != Upsert(es, x, m)[j].name
    ensures forall i :: 0 <= i < |Upsert(es, x, m)| ==> Upsert(es, x, m)[i] == Entry(x, m) || Upsert(es, x, m)[i] in es
  {
    if es != [] && es[0].name != x {
      UpsertNames(es[1..], x, m);
      var us := Upsert(es, x, m);
      forall i, j | 0 <= i < j < |us|
        ensures us[i].name != us[j].name
      {
        if i == 0 {
          var e := us[j];
          assert e == Entry(x, m) || e in es[1..];
        }
      }
    }
  }

  lemma WithoutNames(es: seq<Entry>, x: string)
    requires forall i, j :: 0 <= i < j < |es| ==> es[i].name != es[j].name
    ensures forall i, j :: 0 <= i < j < |Without(es, x)| ==> Without(es, x)[i].name != Without(es, x)[j].name
    ensures forall i :: 0 <= i < |Without(es, x)| ==> Without(es, x)[i] in es
  {
    if es != [] {
      WithoutNames(es[1..], x);
    }
  }

  /** A directory built from entries of a well-formed one, plus one well-formed entry. */
  lemma DirWellFormed(es: seq<Entry>, extra: Entry, us: seq<Entry>)
    requires WellFormed(Dir(es)) && ValidName(extra.name) && WellFormed(extra.node)
    requires forall i, j :: 0 <= i < j < |us| ==> us[i].name != us[j].name
    requires forall i :: 0 <= i < |us| ==> us[i] == extra || us[i] in es
    ensures WellFormed(Dir(us))
  {
    forall i | 0 <= i < |us|
      ensures ValidName(us[i].name) && WellFormed(us[i].node)
    {
      if us[i] != extra {
        var k :| 0 <= k < |es| && es[k] == us[i];
      }
    }
  }

  lemma ChildWellFormed(es: seq<Entry>, name: string)
    requires WellFormed(Dir(es))
    requires Child(es, name).Some?
    ensures WellFormed(Child(es, name).value)
    ensures ValidName(name)
  {
  }

  /** Every subtree of a well-formed tree is well-formed. */
  lemma GetWellFormed(n: Node, q: seq<string>)
    requires WellFormed(n) && Get(n, q).Some?
    ensures WellFormed(Get(n, q).value)
  {
    if q != [] {
      ChildWellFormed(n.entries, q[0]);
      GetWellFormed(Child(n.entries, q[0]).value, q[1..]);
    }
  }

  lemma GetCons(n: Node, a: string, q': seq<string>)
    requires n.Dir? && Child(n.entries, a).Some?
    ensures Get(n, [a] + q') == Get(Child(n.entries, a).value, q')
  {
    assert ([a] + q')[1..] == q';
  }

  lemma ChildOfEntry(es: seq<Entry>, i: nat)
    requires i < |es| && forall j, k :: 0 <= j < k < |es| ==> es[j].name != es[k].name
    ensures Child(es, es[i].name) == Some(es[i].node)
  {
    var j :| 0 <= j < |es| && es[j] == Entry(es[i].name, Child(es, es[i].name).value);
  }

  // ---------------------------------------------------------------------------
  // Get/Set lemmas

  /** Setting `q` leaves every path that is neither above nor below `q` as it was. */
  lemma {:induction false} GetSetFrame(n: Node, q: seq<string>, v: Option<Node>, r: seq<string>)
    requires !(r <= q) && !(q <= r)
    ensures Get(Set(n, q, v), r) == Get(n, r)
    decreases |q|
  {
    match n
    case File(_) =>
    case Dir(es) =>
      GetDir(es, r);
      if |q| == 1 {
        assert q[0] != r[0];
        match v
        case Some(m) =>
          GetDir(Upsert(es, q[0], m), r);
          ChildUpsert(es, q[0], m, r[0]);
        case None =>
          GetDir(Without(es, q[0]), r);
          ChildWithout(es, q[0], r[0]);
      } else {
        match Child(es, q[0])
        case None =>
        case Some(c) =>
          var c' := Set(c, q[1..], v);
          GetDir(Upsert(es, q[0], c'), r);
          ChildUpsert(es, q[0], c', r[0]);
          if q[0] == r[0] {
            assert !(r[1..] <= q[1..]) && !(q[1..] <= r[1..]);
            GetSetFrame(c, q[1..], v, r[1..]);
          }
      }
  }

  /** Below `q` the tree is what was put there. */
  lemma {:induction false} GetSetBelow(n: Node, q: seq<string>, v: Option<Node>, r: seq<string>)
    requires DirsAbove(n, q)
    requires q <= r && (q != [] || v.Some?)
    ensures Get(Set(n, q, v), r) == if v.Some? then Get(v.value, r[|q|..]) else None
    decreases |q|
  {
    if q != [] {
      var es := n.entries;
      GetDir(Set(n, q, v).entries, r);
      if |q| == 1 {
        assert r[1..] == r[|q|..];
        match v
        case Some(m) => ChildUpsert(es, q[0], m, r[0]);
        case None => ChildWithout(es, q[0], r[0]);
      } else {
        var c := Child(es, q[0]).value;
        ChildUpsert(es, q[0], Set(c, q[1..], v), r[0]);
        assert q[1..] <= r[1..] && r[1..][|q[1..]|..] == r[|q|..];
        GetSetBelow(c, q[1..], v, r[1..]);
      }
    }
  }

  /** Directories above `q` stay directories. */
  lemma {:induction false} GetSetAbove(n: Node, q: seq<string>, v: Option<Node>, r: seq<string>)
    requires DirsAbove(n, q)
    requires r < q
    ensures IsDirNode(Get(Set(n, q, v), r))
    decreases |q|
  {
    var es := n.entries;
    if r != [] {
      var c := Child(es, q[0]).value;
      ChildUpsert(es, q[0], Set(c, q[1..], v), r[0]);
      GetSetAbove(c, q[1..], v, r[1..]);
    }
  }

  /** Where directories lead to `q`, every proper prefix of `q` names a directory. */
  lemma {:induction false} DirsAboveDir(n: Node, q: seq<string>, r: seq<string>)
    requires DirsAbove(n, q) && r < q
    ensures IsDirNode(Get(n, r))
    decreases |q|
  {
    if r != [] {
      DirsAboveDir(Child(n.entries, q[0]).value, q[1..], r[1..]);
    }
  }

  /** Removing an entry never brings a missing path into existence. */
  lemma {:induction false} GetSetNone(n: Node, q: seq<string>, r: seq<string>)
    requires Get(n, r) == None
    ensures Get(Set(n, q, None), r) == None
    decreases |q|
  {
    if q != [] && n.Dir? {
      var es := n.entries;
      if |q| == 1 {
        ChildWithout(es, q[0], r[0]);
      } else if Child(es, q[0]).Some? {
        var c := Child(es, q[0]).value;
        ChildUpsert(es, q[0], Set(c, q[1..], None), r[0]);
        if r[0] == q[0] {
          GetSetNone(c, q[1..], r[1..]);
        }
      }
    }
  }

  /** A node exists at `q` only if directories lead to it. */
  lemma {:induction false} GetDirsAbove(n: Node, q: seq<string>)
    requires Get(n, q).Some?
    ensures DirsAbove(n, q)
    decreases |q|
  {
    if |q| > 1 {
      GetDirsAbove(Child(n.entries, q[0]).value, q[1..]);
    }
  }

  /** Above an existing node every prefix is a directory. */
  lemma {:induction false} GetPrefixDir(n: Node, q: seq<string>, r: seq<string>)
    requires Get(n, q).Some? && r < q
    ensures IsDirNode(Get(n, r))
    decreases |q|
  {
    if r != [] {
      GetPrefixDir(Child(n.entries, q[0]).value, q[1..], r[1..]);
    }
  }

  /** Nothing exists below a file or below a missing node. */
  lemma {:induction false} GetBelowNonDir(n: Node, q: seq<string>, r: seq<string>)
    requires q < r && !IsDirNode(Get(n, q))
    ensures Get(n, r) == None
    decreases |q|
  {
    if q == [] {
    } else {
      match n
      case File(_) =>
      case Dir(es) =>
        match Child(es, q[0])
        case None =>
        case Some(c) => GetBelowNonDir(c, q[1..], r[1..]);
    }
  }

  /** Following `q` then `r` is following `q + r`. */
  lemma {:induction false} GetConcat(n: Node, q: seq<string>, r: seq<string>)
    requires Get(n, q).Some?
    ensures Get(n, q + r) == Get(Get(n, q).value, r)
    decreases |q|
  {
    if q == [] {
      assert q + r == r;
    } else {
      assert (q + r)[1..] == q[1..] + r;
      GetConcat(Child(n.entries, q[0]).value, q[1..], r);
    }
  }

  lemma {:induction false} SetWellFormed(n: Node, q: seq<string>, v: Option<Node>)
    requires WellFormed(n) && ValidNames(q)
    requires v.Some? ==> WellFormed(v.value)
    ensures WellFormed(Set(n, q, v))
    decreases |q|
  {
    if q != [] {
      match n
      case File(_) =>
      case Dir(es) =>
        if |q| == 1 {
          match v
          case Some(m) =>
            UpsertNames(es, q[0], m);
            DirWellFormed(es, Entry(q[0], m), Upsert(es, q[0], m));
          case None =>
            WithoutNames(es, q[0]);
            DirWellFormed(es, Entry(q[0], n), Without(es, q[0]));
        } else {
          match Child(es, q[0])
          case None =>
          case Some(c) =>
            ChildWellFormed(es, q[0]);
            SetWellFormed(c, q[1..], v);
            UpsertNames(es, q[0], Set(c, q[1..], v));
            DirWellFormed(es, Entry(q[0], Set(c, q[1..], v)), Upsert(es, q[0], Set(c, q[1..], v)));
        }
    }
  }

  // ---------------------------------------------------------------------------
  // MakeDirs lemmas

  lemma {:induction false} ChainGet(q: seq<string>, r: seq<string>)
    ensures r <= q ==> IsDirNode(Get(Chain(q), r))
    ensures q <= r ==> Get(Chain(q), r) == Get(Dir([]), r[|q|..])
    ensures !(r <= q) && !(q <= r) ==> Get(Chain(q), r) == None
  {
    if q != [] && r != [] {
      ChainGet(q[1..], r[1..]);
    }
  }

  lemma {:induction false} ChainWellFormed(q: seq<string>)
    requires ValidNames(q)
    ensures WellFormed(Chain(q))
  {
    if q != [] {
      ChainWellFormed(q[1..]);
    }
  }

  /** mkdir succeeds only where nothing exists yet, and no file stands above the target. */
  lemma {:induction false} MakeDirsPre(n: Node, q: seq<string>, r: seq<string>)
    requires MakeDirs(n, q).Some?
    ensures q != [] && Get(n, q) == None
    ensures r < q ==> !IsFileNode(Get(n, r))
    decreases |q|
  {
    var c := Child(n.entries, q[0]);
    if c.Some? {
      MakeDirsPre(c.value, q[1..], if r == [] then [] else r[1..]);
    } else if r != [] && r < q {
      assert Get(n, r) == None;
    }
  }

  /** After mkdir the tree holds an empty directory at the target and nothing new below it. */
  lemma {:induction false} MakeDirsGet(n: Node, q: seq<string>, r: seq<string>)
    requires MakeDirs(n, q).Some?
    ensures r < q ==> IsDirNode(Get(MakeDirs(n, q).value, r))
    ensures q <= r ==> Get(MakeDirs(n, q).value, r) == Get(Dir([]), r[|q|..])
    ensures !(r <= q) && !(q <= r) ==> Get(MakeDirs(n, q).value, r) == Get(n, r)
    decreases |q|
  {
    var es := n.entries;
    var m := MakeDirs(n, q).value;
    if r != [] {
      match Child(es, q[0])
      case None =>
        ChildUpsert(es, q[0], Chain(q[1..]), r[0]);
        if r[0] == q[0] {
          ChainGet(q[1..], r[1..]);
        }
      case Some(c) =>
        var c' := MakeDirs(c, q[1..]).value;
        ChildUpsert(es, q[0], c', r[0]);
        if r[0] == q[0] {
          MakeDirsGet(c, q[1..], r[1..]);
        }
    }
  }

  lemma {:induction false} MakeDirsWellFormed(n: Node, q: seq<string>)
    requires WellFormed(n) && ValidNames(q)
    requires MakeDirs(n, q).Some?
    ensures WellFormed(MakeDirs(n, q).value)
    decreases |q|
  {
    var es := n.entries;
    match Child(es, q[0])
    case None =>
      ChainWellFormed(q[1..]);
      UpsertNames(es, q[0], Chain(q[1..]));
      DirWellFormed(es, Entry(q[0], Chain(q[1..])), Upsert(es, q[0], Chain(q[1..])));
    case Some(c) =>
      ChildWellFormed(es, q[0]);
      MakeDirsWellFormed(c, q[1..]);
      UpsertNames(es, q[0], MakeDirs(c, q[1..]).value);
      DirWellFormed(es, Entry(q[0], MakeDirs(c, q[1..]).value), Upsert(es, q[0], MakeDirs(c, q[1..]).value));
  }
}
