/** The walk over file imports that orders a FileDescriptorSet: `walk` and its two callers. A file
    descriptor can only be made once the files it imports are there, so it is an inductive value. */
module SchemaWalk {
  datatype File = File(name: string, dependencies: seq<File>)

  /** A set of files closed under import in which a name stands for one file. */
  ghost predicate World(w: set<File>) {
    && (forall f <- w, g <- w :: f.name == g.name ==> f == g)
    && (forall f <- w, d <- f.dependencies :: d in w)
  }

  ghost predicate Within(fs: seq<File>, w: set<File>) {
    forall f <- fs :: f in w
  }

  function Names(fs: seq<File>): set<string> {
    set f <- fs :: f.name
  }

  // ----- the walk as a function of the order so far -----

  function Walk(order: seq<File>, fd: File): seq<File>
    decreases fd, 1
  {
    if fd.name in Names(order) then order
    else WalkAll(order, fd.dependencies) + [fd]
  }

  function WalkAll(order: seq<File>, fds: seq<File>): seq<File>
    decreases fds, 0
  {
    if fds == [] then order else WalkAll(Walk(order, fds[0]), fds[1..])
  }

  /** The order in which the files of a set of roots are emitted. */
  function Order(files: seq<File>): seq<File> {
    WalkAll([], files)
  }

  // ----- what the order is for -----

  /** Every file comes after all the files it imports, and no name comes twice. */
  ghost predicate Topological(order: seq<File>) {
    && (forall i :: 0 <= i < |order| ==> forall d <- order[i].dependencies :: d in order[..i])
    && (forall i, j :: 0 <= i < j < |order| ==> order[i].name != order[j].name)
  }

  ghost predicate Path(p: seq<File>) {
    && p != []
    && forall i :: 0 <= i < |p| - 1 ==> p[i + 1] in p[i].dependencies
  }

  ghost predicate Leads(p: seq<File>, a: File, b: File) {
    Path(p) && p[0] == a && p[|p| - 1] == b
  }

  ghost predicate Reaches(a: File, b: File) {
    exists p :: Leads(p, a, b)
  }

  ghost predicate ReachedFrom(roots: seq<File>, f: File) {
    exists r <- roots :: Reaches(r, f)
  }

  lemma ReachesSelf(f: File)
    ensures Reaches(f, f)
  {
    assert Leads([f], f, f);
  }

  lemma ReachesThrough(a: File, d: File, b: File)
    requires d in a.dependencies && Reaches(d, b)
    ensures Reaches(a, b)
  {
    var p :| Leads(p, d, b);
    assert Leads([a] + p, a, b);
  }

  /** The longest chain of imports below a file. */
  function Height(f: File): nat
    decreases f, 1
  {
    1 + MaxHeight(f.dependencies)
  }

  function MaxHeight(fs: seq<File>): nat
    decreases fs, 0
  {
    if fs == [] then 0
    else if Height(fs[0]) > MaxHeight(fs[1..]) then Height(fs[0]) else MaxHeight(fs[1..])
  }

  // ----- what a walk keeps -----

  /** o extends order by files reached from the roots, none of them higher than h. */
  ghost predicate Extends(order: seq<File>, o: seq<File>, roots: seq<File>, h: nat) {
    && order <= o
    && forall i :: |order| <= i < |o| ==> ReachedFrom(roots, o[i]) && Height(o[i]) <= h
  }

  ghost predicate Kept(w: set<File>, order: seq<File>, o: seq<File>, roots: seq<File>, h: nat) {
    && Topological(o) && Within(o, w)
    && Extends(order, o, roots, h)
    && forall r <- roots :: r in o
  }

  lemma NameIn(w: set<File>, order: seq<File>, f: File)
    requires World(w) && f in w && Within(order, w)
    ensures f.name in Names(order) <==> f in order
  {
  }

  lemma {:induction false} WalkKeeps(w: set<File>, order: seq<File>, fd: File)
    requires World(w) && fd in w && Within(order, w) && Topological(order)
    ensures Kept(w, order, Walk(order, fd), [fd], Height(fd))
    decreases fd, 1
  {
    NameIn(w, order, fd);
    if fd.name !in Names(order) {
      var o := WalkAll(order, fd.dependencies);
      WalkAllKeeps(w, order, fd.dependencies);
      forall i | |order| <= i < |o| ensures ReachedFrom([fd], o[i]) && o[i] != fd {
        assert ReachedFrom(fd.dependencies, o[i]);
        var r :| r in fd.dependencies && Reaches(r, o[i]);
        ReachesThrough(fd, r, o[i]);
        assert fd in [fd];
      }
      forall i | 0 <= i < |o| ensures o[i] != fd {
        if i < |order| { assert o[i] == order[i]; }
      }
      PushKeeps(w, o, fd);
      ReachesSelf(fd);
      assert fd in [fd];
    }
  }

  lemma PushKeeps(w: set<File>, o: seq<File>, fd: File)
    requires World(w) && fd in w && Within(o, w) && Topological(o)
    requires fd !in o && forall d <- fd.dependencies :: d in o
    ensures Topological(o + [fd]) && Within(o + [fd], w)
  {
    var p := o + [fd];
    forall i | 0 <= i < |p| ensures forall d <- p[i].dependencies :: d in p[..i] {
      if i < |o| {
        assert p[..i] == o[..i];
      } else {
        assert p[..i] == o;
      }
    }
  }

  lemma {:induction false} WalkAllKeeps(w: set<File>, order: seq<File>, fds: seq<File>)
    requires World(w) && Within(fds, w) && Within(order, w) && Topological(order)
    ensures Kept(w, order, WalkAll(order, fds), fds, MaxHeight(fds))
    decreases fds, 0
  {
    if fds == [] {
    } else {
      var o1 := Walk(order, fds[0]);
      var o := WalkAll(o1, fds[1..]);
      assert fds == [fds[0]] + fds[1..];
      WalkKeeps(w, order, fds[0]);
      WalkAllKeeps(w, o1, fds[1..]);
      forall i | |order| <= i < |o| ensures ReachedFrom(fds, o[i]) && Height(o[i]) <= MaxHeight(fds) {
        if i < |o1| {
          assert o[i] == o1[i];
          var r :| r in [fds[0]] && Reaches(r, o1[i]);
          assert r in fds;
        } else {
          var r :| r in fds[1..] && Reaches(r, o[i]);
          assert r in fds;
        }
      }
      forall r <- fds ensures r in o {
        assert fds[0] in [fds[0]];
        if r in o1 {
          var i :| 0 <= i < |o1| && o1[i] == r;
          assert o[i] == r;
        }
      }
    }
  }

  lemma {:induction false} PathStays(o: seq<File>, p: seq<File>, k: nat)
    requires Topological(o) && Path(p) && p[0] in o && k < |p|
    ensures p[k] in o
  {
    if k == 0 {
    } else {
      PathStays(o, p, k - 1);
      var i :| 0 <= i < |o| && o[i] == p[k - 1];
      assert p[k - 1 + 1] in o[i].dependencies;
      assert p[k] in o[..i];
    }
  }

  lemma ReachStays(o: seq<File>, a: File, b: File)
    requires Topological(o) && a in o && Reaches(a, b)
    ensures b in o
  {
    var p :| Leads(p, a, b);
    PathStays(o, p, |p| - 1);
  }

  /** The emitted order holds exactly the files reached from the roots, each once, each after all the
      files it imports. */
  lemma OrderIsClosure(w: set<File>, files: seq<File>)
    requires World(w) && Within(files, w)
    ensures Topological(Order(files)) && Within(Order(files), w)
    ensures forall f :: f in Order(files) <==> ReachedFrom(files, f)
  {
    var o := Order(files);
    WalkAllKeeps(w, [], files);
    forall f ensures f in o <==> ReachedFrom(files, f) {
      if f in o {
        var i :| 0 <= i < |o| && o[i] == f;
      }
      if ReachedFrom(files, f) {
        var r :| r in files && Reaches(r, f);
        ReachStays(o, r, f);
      }
    }
  }

  // ----- the incremental law -----

  /** The files of o that are not in v, in order. */
  function Without(o: seq<File>, v: seq<File>): seq<File> {
    if o == [] then []
    else (if o[0] in v then [] else [o[0]]) + Without(o[1..], v)
  }

  lemma {:induction false} WithoutConcat(a: seq<File>, b: seq<File>, v: seq<File>)
    ensures Without(a + b, v) == Without(a, v) + Without(b, v)
  {
    if a == [] {
      assert a + b == b;
    } else {
      assert (a + b)[0] == a[0] && (a + b)[1..] == a[1..] + b;
      WithoutConcat(a[1..], b, v);
    }
  }

  lemma {:induction false} WithoutMembers(o: seq<File>, v: seq<File>)
    ensures forall f :: f in Without(o, v) <==> f in o && f !in v
  {
    if o == [] {
    } else {
      WithoutMembers(o[1..], v);
    }
  }

  lemma {:induction false} WithoutAll(o: seq<File>, v: seq<File>)
    requires forall f <- o :: f in v
    ensures Without(o, v) == []
  {
    if o == [] {
    } else {
      assert o[0] in o;
      WithoutAll(o[1..], v);
    }
  }

  /** Filtering in two steps: by a, then by v. */
  lemma {:induction false} WithoutTwice(o: seq<File>, a: seq<File>, v: seq<File>)
    ensures Without(Without(o, a), v) == Without(o, v + Without(a, v))
  {
    WithoutMembers(a, v);
    if o == [] {
    } else {
      var x, rest := o[0], Without(o[1..], a);
      WithoutTwice(o[1..], a, v);
      assert x in v + Without(a, v) <==> x in v || x in a;
      if x !in a {
        assert Without(o, a) == [x] + rest;
        assert ([x] + rest)[1..] == rest;
      } else {
        assert Without(o, a) == rest;
      }
    }
  }

  /** Walking on from a dependency-closed order appends the from-scratch order minus what is there. */
  lemma {:induction false} WalkIncremental(w: set<File>, v: seq<File>, fd: File)
    requires World(w) && fd in w && Within(v, w) && Topological(v)
    ensures Walk(v, fd) == v + Without(Walk([], fd), v)
    decreases fd, 1
  {
    hide World, Within, Topological, Names;
    NameIn(w, v, fd);
    if fd in v {
      NothingNew(w, v, fd);
    } else {
      var scratch := WalkAll([], fd.dependencies);
      assert Walk([], fd) == scratch + [fd] by { NoNames(); }
      assert Within(fd.dependencies, w) by { DependenciesWithin(w, fd); }
      WalkAllIncremental(w, v, fd.dependencies);
      WithoutConcat(scratch, [fd], v);
      assert [fd][1..] == [];
      assert v + (Without(scratch, v) + [fd]) == v + Without(scratch, v) + [fd];
    }
  }

  lemma NoNames()
    ensures Names([]) == {}
  {
  }

  lemma DependenciesWithin(w: set<File>, fd: File)
    requires World(w) && fd in w
    ensures Within(fd.dependencies, w)
  {
  }

  lemma NothingNew(w: set<File>, v: seq<File>, fd: File)
    requires World(w) && fd in w && Topological(v) && fd in v
    ensures v + Without(Walk([], fd), v) == v
  {
    hide Walk, Height, World, Reaches;
    var o := Walk([], fd);
    NothingIsTopological();
    WalkKeeps(w, [], fd);
    forall f <- o ensures f in v {
      var i :| 0 <= i < |o| && o[i] == f;
      assert ReachedFrom([fd], f);
      ReachStays(v, fd, f);
    }
    WithoutAll(o, v);
  }

  lemma {:induction false} WalkAllIncremental(w: set<File>, v: seq<File>, fds: seq<File>)
    requires World(w) && Within(fds, w) && Within(v, w) && Topological(v)
    ensures WalkAll(v, fds) == v + Without(WalkAll([], fds), v)
    decreases fds, 0
  {
    if fds == [] {
    } else {
      hide World, Topological, Walk;
      var d, rest := fds[0], fds[1..];
      assert fds == [d] + rest;
      var a, b := Walk([], d), WalkAll([], rest);
      assert Topological([]) by { NothingIsTopological(); }
      WalkKeeps(w, v, d);
      WalkKeeps(w, [], d);
      WalkIncremental(w, v, d);
      WalkAllIncremental(w, Walk(v, d), rest);
      WalkAllIncremental(w, a, rest);
      Regroup(v, a, b);
    }
  }

  lemma NothingIsTopological()
    ensures Topological([])
  {
  }

  lemma Regroup(v: seq<File>, a: seq<File>, b: seq<File>)
    ensures v + Without(a, v) + Without(b, v + Without(a, v)) == v + Without(a + Without(b, a), v)
  {
    WithoutConcat(a, Without(b, a), v);
    WithoutTwice(b, a, v);
  }

  lemma {:induction false} WalkAllConcat(order: seq<File>, fs: seq<File>, gs: seq<File>)
    ensures WalkAll(order, fs + gs) == WalkAll(WalkAll(order, fs), gs)
    decreases |fs|
  {
    if fs == [] {
      assert fs + gs == gs;
    } else {
      assert (fs + gs)[0] == fs[0] && (fs + gs)[1..] == fs[1..] + gs;
      WalkAllConcat(Walk(order, fs[0]), fs[1..], gs);
    }
  }

  /** More roots only extend the order, by their own closure minus what is already there. */
  lemma OrderExtends(w: set<File>, fs: seq<File>, gs: seq<File>)
    requires World(w) && Within(fs, w) && Within(gs, w)
    ensures Order(fs + gs) == Order(fs) + Without(Order(gs), Order(fs))
  {
    WalkAllConcat([], fs, gs);
    WalkAllKeeps(w, [], fs);
    WalkAllIncremental(w, Order(fs), gs);
  }

  lemma {:induction false} AllVisited(order: seq<File>, fds: seq<File>)
    requires forall f <- fds :: f in order
    ensures WalkAll(order, fds) == order
  {
    if fds == [] {
    } else {
      assert fds[0] in fds;
      AllVisited(order, fds[1..]);
    }
  }

  lemma {:induction false} Replay(o: seq<File>, k: nat)
    requires Topological(o) && k <= |o|
    ensures WalkAll(o[..k], o[k..]) == o
    decreases |o| - k
  {
    if k == |o| {
      assert o[..k] == o && o[k..] == [];
    } else {
      AllVisited(o[..k], o[k].dependencies);
      assert o[k..][0] == o[k] && o[k..][1..] == o[k + 1..] && o[..k] + [o[k]] == o[..k + 1];
      Replay(o, k + 1);
    }
  }

  /** Feeding an order back as the list of roots reproduces it. */
  lemma OrderOfOrder(w: set<File>, files: seq<File>)
    requires World(w) && Within(files, w)
    ensures Order(Order(files)) == Order(files)
  {
    OrderIsClosure(w, files);
    var o := Order(files);
    Replay(o, 0);
    assert o[..0] == [] && o[0..] == o;
  }

  /** One file as the only root: the two entry points agree. */
  lemma OneRoot(fd: File)
    ensures Order([fd]) == Walk([], fd)
  {
    assert [fd][1..] == [] && WalkAll(Walk([], fd), []) == Walk([], fd);
  }

  /** A file comes right behind what its imports give as roots, in the order in which it lists them. With
      `OrderExtends` this determines every order. */
  lemma ImportsFirst(f: File)
    ensures Order([f]) == Order(f.dependencies) + [f]
  {
    OneRoot(f);
    NoNames();
  }

  /** So two imports without imports of their own come out as they are listed. */
  lemma LeavesInOrder(f: File, a: File, b: File)
    requires f.dependencies == [a, b] && a.dependencies == [] && b.dependencies == [] && a.name != b.name
    ensures Order([f]) == [a, b, f]
  {
    hide Order;
    ImportsFirst(f);
    OrderOfTwo(a, b);
  }

  lemma OrderOfTwo(a: File, b: File)
    requires a.dependencies == [] && b.dependencies == [] && a.name != b.name
    ensures Order([a, b]) == [a, b]
  {
    NoNames();
    assert Walk([], a) == [a];
    assert Names([a]) == {a.name};
    assert Walk([a], b) == [a] + [b];
    assert [a, b][1..] == [b] && [b][1..] == [];
    assert WalkAll([a], [b]) == WalkAll([a] + [b], []);
  }
}
