/** The two entry points of the walk, with its shared state, and their C++ consumers. Serialization of
    the FileDescriptorSet between them is foreign code; a set is the list of its file protos. */
module SchemaMethods {
  import opened Results
  import opened Cpp
  import opened SchemaWalk

  datatype FileProto = FileProto(name: string, dependency: seq<string>)

  function DependencyNames(fs: seq<File>): seq<string> {
    seq(|fs|, i requires 0 <= i < |fs| => fs[i].name)
  }

  /** `fd.CopyToProto(proto)` */
  function Proto(f: File): FileProto {
    FileProto(f.name, DependencyNames(f.dependencies))
  }

  function Protos(fs: seq<File>): seq<FileProto> {
    seq(|fs|, i requires 0 <= i < |fs| => Proto(fs[i]))
  }

  /** How many import edges leave the files of a list. */
  function Imports(fs: seq<File>): nat {
    if fs == [] then 0 else Imports(fs[..|fs| - 1]) + |fs[|fs| - 1].dependencies|
  }

  /** The closure `walk` with the `visited` dict and the `order` list it captures; `calls` and `bodies`
      count its calls and the calls that get past the first test. */
  class Walker {
    var visited: map<string, File>
    var order: seq<File>
    ghost var calls: nat
    ghost var bodies: nat

    ghost predicate Valid()
      reads this
    {
      visited.Keys == Names(order)
    }

    constructor ()
      ensures Valid() && order == [] && calls == 0 && bodies == 0
    {
      visited, order, calls, bodies := map[], [], 0, 0;
    }

    method Visit(fd: File)
      requires Valid()
      modifies this
      ensures Valid() && order == Walk(old(order), fd)
      ensures calls - old(calls) == 1 + Imports(order) - Imports(old(order))
      ensures bodies - old(bodies) == |order| - |old(order)|
      decreases fd
    {
      calls := calls + 1;
      if fd.name in visited {
        return;
      }
      bodies := bodies + 1;
      var i := 0;
      while i < |fd.dependencies|
        invariant i <= |fd.dependencies|
        invariant Valid()
        invariant WalkAll(order, fd.dependencies[i..]) == WalkAll(old(order), fd.dependencies)
        invariant calls - old(calls) == 1 + i + Imports(order) - Imports(old(order))
        invariant bodies - old(bodies) == 1 + |order| - |old(order)|
      {
        assert fd.dependencies[i..][1..] == fd.dependencies[i + 1..];
        Visit(fd.dependencies[i]);
        i := i + 1;
      }
      ghost var before := order;
      visited, order := visited[fd.name := fd], order + [fd];
      assert order[..|order| - 1] == before;
      assert Names(order) == Names(before) + {fd.name} by { NamesPush(before, fd); }
    }
  }

  lemma NamesPush(fs: seq<File>, f: File)
    ensures Names(fs + [f]) == Names(fs) + {f.name}
  {
    var gs := fs + [f];
    assert gs[|fs|] == f;
    forall n | n in Names(fs) ensures n in Names(gs) {
      var i :| 0 <= i < |fs| && fs[i].name == n;
      assert gs[i] == fs[i];
    }
  }

  method FdsForFiles(files: seq<File>) returns (fds: seq<FileProto>, ghost calls: nat, ghost bodies: nat)
    ensures fds == Protos(Order(files))
    ensures |fds| == |Order(files)|
    ensures forall i :: 0 <= i < |fds| ==>
              var f := Order(files)[i];
              && fds[i].name == f.name && |fds[i].dependency| == |f.dependencies|
              && forall j :: 0 <= j < |f.dependencies| ==> fds[i].dependency[j] == f.dependencies[j].name
    ensures calls == |files| + Imports(Order(files))
    ensures bodies == |Order(files)|
  {
    var walker := new Walker();
    var i := 0;
    while i < |files|
      invariant i <= |files|
      invariant walker.Valid() && fresh(walker)
      invariant WalkAll(walker.order, files[i..]) == WalkAll([], files)
      invariant walker.calls == i + Imports(walker.order)
      invariant walker.bodies == |walker.order|
    {
      assert files[i..][1..] == files[i + 1..];
      walker.Visit(files[i]);
      i := i + 1;
    }
    calls, bodies := walker.calls, walker.bodies;
    fds := CopyAll(walker.order);
  }

  method FdsForDescriptor(file: File) returns (fds: seq<FileProto>)
    ensures fds == Protos(Order([file]))
    ensures |fds| == |Order([file])|
    ensures forall i :: 0 <= i < |fds| ==>
              var f := Order([file])[i];
              && fds[i].name == f.name && |fds[i].dependency| == |f.dependencies|
              && forall j :: 0 <= j < |f.dependencies| ==> fds[i].dependency[j] == f.dependencies[j].name
  {
    var walker := new Walker();
    walker.Visit(file);
    OneRoot(file);
    fds := CopyAll(walker.order);
  }

  /** The loop that fills `fds.file`. */
  method CopyAll(order: seq<File>) returns (fds: seq<FileProto>)
    ensures fds == Protos(order)
  {
    fds := [];
    for i := 0 to |order|
      invariant fds == Protos(order[..i])
    {
      assert order[..i + 1] == order[..i] + [order[i]];
      fds := fds + [Proto(order[i])];
    }
    assert order[..|order|] == order;
  }

  // ----- the consumer in module.cc -----

  type Pool = map<string, File>

  ghost predicate DistinctNames(names: seq<string>) {
    forall i, j :: 0 <= i < j < |names| ==> names[i] != names[j]
  }

  predicate NoRepeats(names: seq<string>)
    ensures NoRepeats(names) <==> DistinctNames(names)
  {
    if names == [] then true
    else
      assert forall i :: 0 < i < |names| ==> names[i] == names[1..][i - 1];
      names[0] !in names[1..] && NoRepeats(names[1..])
  }

  /** `DescriptorPool::BuildFile`: a file that is there and identical is returned as it is; a new one needs
      its name free, every import built, and no import listed twice. */
  function BuildFile(pool: Pool, fp: FileProto): Option<File> {
    if fp.name in pool then
      (if Proto(pool[fp.name]) == fp then Some(pool[fp.name]) else None)
    else if NoRepeats(fp.dependency) && forall d <- fp.dependency :: d in pool then
      Some(File(fp.name, seq(|fp.dependency|, i requires 0 <= i < |fp.dependency| => pool[fp.dependency[i]])))
    else None
  }

  datatype SchemaBundle = SchemaBundle(pool: Pool, files: seq<File>)

  function BuildFrom(b: SchemaBundle, fds: seq<FileProto>): Result<SchemaBundle>
    decreases |fds|
  {
    if fds == [] then Ok(b)
    else
      match BuildFile(b.pool, fds[0])
      case None => ValueError
      case Some(fd) => BuildFrom(SchemaBundle(b.pool[fd.name := fd], b.files + [fd]), fds[1..])
  }

  const NO_SCHEMA := SchemaBundle(map[], [])

  function ProtoNames(fds: seq<FileProto>): set<string> {
    set fp <- fds :: fp.name
  }

  /** fp may follow the protos in `before`: it repeats one of them, or its name is new, its imports have
      come, and none of them is listed twice. */
  ghost predicate Follows(before: seq<FileProto>, fp: FileProto) {
    || fp in before
    || (&& fp.name !in ProtoNames(before)
        && DistinctNames(fp.dependency)
        && forall d <- fp.dependency :: d in ProtoNames(before))
  }

  ghost predicate Buildable(fds: seq<FileProto>) {
    forall i :: 0 <= i < |fds| ==> Follows(fds[..i], fds[i])
  }

  /** What has been built from the protos in `done`: one file per proto, in order, and a pool that holds
      each of them under its name and nothing else; an import stands for the pool's file of that name. */
  ghost predicate Built(b: SchemaBundle, done: seq<FileProto>) {
    && Protos(b.files) == done
    && (forall fp <- done :: fp.name in b.pool && Proto(b.pool[fp.name]) == fp)
    && (forall n :: n in b.pool ==> Proto(b.pool[n]) in done && b.pool[n].name == n)
    && Shares(b)
  }

  ghost predicate FromPool(pool: Pool, f: File) {
    forall d <- f.dependencies :: d.name in pool && pool[d.name] == d
  }

  /** Files and imports are the pool's own. */
  ghost predicate Shares(b: SchemaBundle) {
    && (forall f <- b.files :: f.name in b.pool && b.pool[f.name] == f)
    && (forall n :: n in b.pool ==> FromPool(b.pool, b.pool[n]))
  }

  lemma BuiltNames(b: SchemaBundle, done: seq<FileProto>)
    requires Built(b, done)
    ensures b.pool.Keys == ProtoNames(done)
  {
  }

  lemma BuildStep(b: SchemaBundle, done: seq<FileProto>, fp: FileProto)
    requires Built(b, done)
    ensures BuildFile(b.pool, fp).Some? <==> Follows(done, fp)
    ensures BuildFile(b.pool, fp).Some? ==>
              var fd := BuildFile(b.pool, fp).value;
              && Proto(fd) == fp && fd.name == fp.name && (fp.name in b.pool ==> b.pool[fp.name] == fd)
              && FromPool(b.pool, fd)
  {
    hide NoRepeats;
    BuiltNames(b, done);
    var fd := BuildFile(b.pool, fp);
    if fd.Some? && fp.name !in b.pool {
      assert DependencyNames(fd.value.dependencies) == fp.dependency;
    }
  }

  lemma BuiltPush(b: SchemaBundle, done: seq<FileProto>, fd: File)
    requires Built(b, done)
    requires fd.name in b.pool ==> b.pool[fd.name] == fd
    requires FromPool(b.pool, fd)
    ensures Built(SchemaBundle(b.pool[fd.name := fd], b.files + [fd]), done + [Proto(fd)])
  {
    var all := done + [Proto(fd)];
    assert Protos(b.files + [fd]) == all;
    assert forall fp :: fp in all <==> fp in done || fp == Proto(fd);
    SharesPush(b, fd);
    hide Shares, FromPool, DependencyNames;
  }

  lemma SharesPush(b: SchemaBundle, fd: File)
    requires Shares(b) && FromPool(b.pool, fd)
    requires fd.name in b.pool ==> b.pool[fd.name] == fd
    ensures Shares(SchemaBundle(b.pool[fd.name := fd], b.files + [fd]))
  {
    var pool := b.pool[fd.name := fd];
    forall n | n in pool ensures FromPool(pool, pool[n]) {
    }
  }

  lemma BuildablePush(done: seq<FileProto>, fp: FileProto, rest: seq<FileProto>)
    requires Buildable(done)
    ensures Buildable(done + [fp]) <==> Follows(done, fp)
    ensures Buildable(done + [fp] + rest) ==> Buildable(done + [fp])
  {
    hide Follows;
    var all := done + [fp];
    assert all[..|done|] == done;
    forall i | 0 <= i < |done| ensures all[..i] == done[..i] && all[i] == done[i] {
    }
    var more := all + rest;
    forall i | 0 <= i < |all| ensures more[..i] == all[..i] && more[i] == all[i] {
    }
  }

  lemma {:induction false} BuildRestIff(b: SchemaBundle, done: seq<FileProto>, fds: seq<FileProto>)
    requires Built(b, done) && Buildable(done)
    ensures BuildFrom(b, fds).Ok? <==> Buildable(done + fds)
    ensures BuildFrom(b, fds).Ok? ==> Built(BuildFrom(b, fds).value, done + fds)
    decreases |fds|
  {
    if fds == [] {
      assert done + fds == done;
    } else {
      hide Built, Buildable, Follows, BuildFile, Proto, Protos, FromPool;
      var fp := fds[0];
      assert done + fds == (done + [fp]) + fds[1..];
      BuildablePush(done, fp, fds[1..]);
      BuildStep(b, done, fp);
      var fd := BuildFile(b.pool, fp);
      if fd.Some? {
        var c := SchemaBundle(b.pool[fd.value.name := fd.value], b.files + [fd.value]);
        BuiltPush(b, done, fd.value);
        BuildRestIff(c, done + [fp], fds[1..]);
        assert BuildFrom(b, fds) == BuildFrom(c, fds[1..]);
      }
    }
  }

  /** A list of protos builds exactly when each one follows those before it, a repeat of an identical one
      included; the files built are then described by the very protos given. */
  lemma BuildSucceedsIff(fds: seq<FileProto>)
    ensures BuildFrom(NO_SCHEMA, fds).Ok? <==> Buildable(fds)
    ensures BuildFrom(NO_SCHEMA, fds).Ok? ==> Built(BuildFrom(NO_SCHEMA, fds).value, fds)
  {
    assert [] + fds == fds;
    BuildRestIff(NO_SCHEMA, [], fds);
  }

  method BuildSchema(fds: seq<FileProto>) returns (r: Result<SchemaBundle>)
    ensures r == BuildFrom(NO_SCHEMA, fds)
    ensures r.Ok? <==> Buildable(fds)
    ensures r.Ok? ==> Built(r.value, fds)
  {
    BuildSucceedsIff(fds);
    var b := NO_SCHEMA;
    var i := 0;
    while i < |fds|
      invariant i <= |fds|
      invariant BuildFrom(b, fds[i..]) == BuildFrom(NO_SCHEMA, fds)
    {
      assert fds[i..][1..] == fds[i + 1..];
      var fd := BuildFile(b.pool, fds[i]);
      if fd.None? {
        return ValueError;
      }
      b := SchemaBundle(b.pool[fd.value.name := fd.value], b.files + [fd.value]);
      i := i + 1;
    }
    return Ok(b);
  }

  /** `SbeCodec::Create` up to the file selection: the files handed to the codec. */
  method Create(fds: seq<FileProto>, fileNames: seq<string>, maxMessageSize: int32, maxRepeatedCount: int32)
      returns (r: Result<seq<File>>)
    ensures r == Selection(fds, fileNames, maxMessageSize, maxRepeatedCount)
    ensures r.Ok? <==> && maxMessageSize >= 0 && maxRepeatedCount >= 0 && Buildable(fds)
                       && forall n <- fileNames :: exists fp <- fds :: fp.name == n
    ensures r.Ok? && fileNames == [] ==> Protos(r.value) == fds
    ensures r.Ok? && fileNames != [] ==>
              && |r.value| == |fileNames|
              && forall i :: 0 <= i < |fileNames| ==> r.value[i].name == fileNames[i] && Proto(r.value[i]) in fds
  {
    hide BuildFrom, Buildable, Proto;
    if maxMessageSize < 0 {
      return ValueError;
    }
    if maxRepeatedCount < 0 {
      return ValueError;
    }
    var schema :- BuildSchema(fds);
    BuiltNames(schema, fds);
    var selected := [];
    for i := 0 to |fileNames|
      invariant forall j :: 0 <= j < i ==> fileNames[j] in schema.pool
      invariant |selected| == i
      invariant forall j :: 0 <= j < i ==> selected[j] == schema.pool[fileNames[j]]
    {
      if fileNames[i] !in schema.pool {
        return ValueError;
      }
      selected := selected + [schema.pool[fileNames[i]]];
    }
    assert forall n <- fileNames :: n in schema.pool;
    assert selected == Picked(schema.pool, fileNames);
    if selected == [] {
      selected := schema.files;
    }
    return Ok(selected);
  }

  function Selection(fds: seq<FileProto>, fileNames: seq<string>, maxMessageSize: int32, maxRepeatedCount: int32)
      : Result<seq<File>>
  {
    if maxMessageSize < 0 || maxRepeatedCount < 0 then ValueError
    else
      match BuildFrom(NO_SCHEMA, fds)
      case ValueError => ValueError
      case Ok(b) =>
        if exists n <- fileNames :: n !in b.pool then ValueError
        else if fileNames == [] then Ok(b.files)
        else Ok(Picked(b.pool, fileNames))
  }

  function Picked(pool: Pool, names: seq<string>): seq<File>
    requires forall n <- names :: n in pool
  {
    seq(|names|, i requires 0 <= i < |names| => pool[names[i]])
  }

  // ----- the two sides agree -----

  /** No file lists an import twice. protobuf makes no descriptor for one that does. */
  ghost predicate ImportsOnce(w: set<File>) {
    forall f <- w :: DistinctNames(DependencyNames(f.dependencies))
  }

  /** The pool that holds exactly the files of a list. */
  ghost predicate Holds(b: SchemaBundle, o: seq<File>) {
    && b.files == o
    && (forall n :: n in b.pool ==> b.pool[n] in o && b.pool[n].name == n)
    && (forall f <- o :: f.name in b.pool && b.pool[f.name] == f)
  }

  lemma BuildOne(b: SchemaBundle, o: seq<File>, f: File)
    requires Holds(b, o)
    requires forall d <- f.dependencies :: d in o
    requires forall g <- o :: g.name != f.name
    requires DistinctNames(DependencyNames(f.dependencies))
    ensures BuildFile(b.pool, Proto(f)) == Some(f)
    ensures Holds(SchemaBundle(b.pool[f.name := f], b.files + [f]), o + [f])
  {
    var fp := Proto(f);
    forall i | 0 <= i < |fp.dependency| ensures fp.dependency[i] in b.pool && b.pool[fp.dependency[i]] == f.dependencies[i] {
      assert f.dependencies[i] in f.dependencies;
    }
    assert BuildFile(b.pool, fp).Some?;
    assert BuildFile(b.pool, fp).value.dependencies == f.dependencies;
  }

  lemma {:induction false} BuildRest(b: SchemaBundle, o: seq<File>, k: nat) returns (c: SchemaBundle)
    requires Topological(o) && k <= |o| && Holds(b, o[..k])
    requires forall f <- o :: DistinctNames(DependencyNames(f.dependencies))
    ensures BuildFrom(b, Protos(o[k..])) == Ok(c) && Holds(c, o)
    decreases |o| - k
  {
    if k == |o| {
      c := b;
      assert o[..k] == o && Protos(o[k..]) == [];
    } else {
      BuildOne(b, o[..k], o[k]);
      assert o[..k] + [o[k]] == o[..k + 1];
      assert Protos(o[k..])[0] == Proto(o[k]) && Protos(o[k..])[1..] == Protos(o[k + 1..]);
      c := BuildRest(SchemaBundle(b.pool[o[k].name := o[k]], b.files + [o[k]]), o, k + 1);
    }
  }

  /** The order that Python emits is one that C++ can build: no import is missing, no name is taken, and
      what is built is the very closure that was walked. */
  lemma WalkedSetBuilds(w: set<File>, files: seq<File>) returns (b: SchemaBundle)
    requires World(w) && ImportsOnce(w) && Within(files, w)
    ensures BuildFrom(NO_SCHEMA, Protos(Order(files))) == Ok(b)
    ensures Holds(b, Order(files))
  {
    var o := Order(files);
    OrderIsClosure(w, files);
    assert o[..0] == [] && o[0..] == o;
    b := BuildRest(NO_SCHEMA, o, 0);
  }

  /** So the SBE codec finds every file it is asked to register, and registers exactly those. */
  lemma CodecSelectsItsFiles(w: set<File>, files: seq<File>, maxMessageSize: int32, maxRepeatedCount: int32)
    requires World(w) && ImportsOnce(w) && Within(files, w) && files != []
    requires maxMessageSize >= 0 && maxRepeatedCount >= 0
    ensures Selection(Protos(Order(files)), DependencyNames(files), maxMessageSize, maxRepeatedCount) == Ok(files)
  {
    hide World, Within, Order, Topological, Reaches, Holds, BuildFrom, ImportsOnce;
    var b := WalkedSetBuilds(w, files);
    OrderIsClosure(w, files);
    forall f <- files ensures f in Order(files) {
      ReachesSelf(f);
    }
    PickedAre(b, Order(files), files);
  }

  /** `Codec.__init__` in sbe.py: the files the codec is made for. */
  method NewCodec(files: seq<File>, maxMessageSize: int32, maxRepeatedCount: int32, ghost w: set<File>)
      returns (r: Result<seq<File>>)
    requires World(w) && ImportsOnce(w) && Within(files, w)
    ensures r == if files == [] || maxMessageSize < 0 || maxRepeatedCount < 0 then ValueError else Ok(files)
  {
    hide World, Within, Order, BuildFrom, ImportsOnce;
    if files == [] {
      return ValueError;
    }
    var fds, _, _ := FdsForFiles(files);
    r := Create(fds, DependencyNames(files), maxMessageSize, maxRepeatedCount);
    if maxMessageSize >= 0 && maxRepeatedCount >= 0 {
      CodecSelectsItsFiles(w, files, maxMessageSize, maxRepeatedCount);
    }
  }

  lemma PickedAre(b: SchemaBundle, o: seq<File>, files: seq<File>)
    requires Holds(b, o) && forall f <- files :: f in o
    ensures forall n <- DependencyNames(files) :: n in b.pool
    ensures Picked(b.pool, DependencyNames(files)) == files
  {
    forall i | 0 <= i < |files| ensures files[i].name in b.pool && b.pool[files[i].name] == files[i] {
      assert files[i] in files;
    }
  }
}
