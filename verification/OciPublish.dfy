/** The publish sequence of oci-static-registry.py over the file-tree steps of OciRegistry. */
module OciPublish {
  import opened Wrappers
  import opened Bytes
  import opened Sorting
  import opened OciRegistry

  type Layout = map<Name, Data>

  /** An entry of the layout's index.json with its ref.name annotation. */
  datatype Entry = Entry(desc: Descriptor, refName: Option<Name>)

  // ----- choosing the image

  /** read_blob: the blob, if it is there and has its digest. */
  function ReadBlob(env: Env, layout: Layout, digest: Name): Option<Data>
  {
    if digest in layout && env.hash(layout[digest]) == digest then Some(layout[digest]) else None
  }

  function Matching(entries: seq<Entry>, ref: Name): seq<Entry>
  {
    if ref == [] then entries else Filter((e: Entry) => e.refName == Some(ref), entries)
  }

  /** The image a run publishes, if its arguments name exactly one of a supported type. */
  function Chosen(env: Env, layout: Layout, entries: seq<Entry>, ref: Name): Option<Served>
  {
    var found := Matching(entries, ref);
    if |found| != 1 then None
    else
      match ReadBlob(env, layout, found[0].desc.digest)
      case None => None
      case Some(data) =>
        match TypeOf(found[0].desc, env.parse(data))
        case IndexType => Some(Served(Index, data))
        case ManifestType => Some(Served(Manifest, data))
        case OtherType => None
  }

  /** A child that the run lays out as a manifest is not an index. */
  ghost predicate HonestChild(env: Env, layout: Layout, d: Descriptor)
  {
    var read := ReadBlob(env, layout, d.digest);
    read.Some? && TypeOf(d, env.parse(read.value)) != IndexType ==> !env.isIndex(read.value)
  }

  ghost predicate HonestChildren(env: Env, layout: Layout, ds: seq<Descriptor>)
  {
    forall i :: 0 <= i < |ds| ==> HonestChild(env, layout, ds[i])
  }

  /** The image is of the kind its descriptor calls it, and so are the children of an index. */
  ghost predicate Honest(env: Env, layout: Layout, image: Served)
  {
    && (env.isIndex(image.data) <==> image.kind == Index)
    && (image.kind == Index ==> HonestChildren(env, layout, env.parse(image.data).manifests))
  }

  /** The layout holds all blobs of a manifest. */
  ghost predicate ManifestInLayout(layout: Layout, doc: Doc)
  {
    && doc.config.Some? && doc.config.value in layout
    && forall i :: 0 <= i < |doc.layers| ==> doc.layers[i] in layout
  }

  ghost predicate ChildInLayout(env: Env, layout: Layout, d: Descriptor)
  {
    var data := ReadBlob(env, layout, d.digest);
    && data.Some? && TypeOf(d, env.parse(data.value)) != IndexType
    && ManifestInLayout(layout, env.parse(data.value))
  }

  /** The layout is whole: a run over it has nothing to stop at. */
  ghost predicate InLayout(env: Env, layout: Layout, s: Served)
  {
    var doc := env.parse(s.data);
    match s.kind
    case Manifest => ManifestInLayout(layout, doc)
    case Index => forall i :: 0 <= i < |doc.manifests| ==> ChildInLayout(env, layout, doc.manifests[i])
  }

  // ----- laying out blobs and manifests

  /** copy_blob. */
  method CopyBlob(store: Store, layout: Layout, digest: Name, ghost g: Goal) returns (ok: bool)
    requires store.Sound(g)
    modifies store
    ensures store.Sound(g) && old(store.trace) <= store.trace && Grows(old(store.tree), store.tree)
    ensures ok <==> Blob(digest) in old(store.tree) || digest in layout
    ensures ok ==> Blob(digest) in store.tree
    ensures Blob(digest) in old(store.tree) ==> store.tree == old(store.tree) && store.trace == old(store.trace)
    ensures Blob(digest) !in old(store.tree) && ok ==> store.tree[Blob(digest)] == layout[digest]
    ensures AgreeBut(old(store.tree), store.tree, Blob(digest))
  {
    if Blob(digest) in store.tree { return true; }
    if digest !in layout { return false; }
    store.WriteAtomic(Blob(digest), layout[digest], g);
    ok := true;
  }

  /** The tags list is as it was. */
  ghost predicate SameList(t: Tree, t': Tree)
  {
    (TagsList in t <==> TagsList in t') && (TagsList in t ==> t[TagsList] == t'[TagsList])
  }

  method CopyLayers(store: Store, layout: Layout, layers: seq<Name>, ghost g: Goal) returns (ok: bool)
    requires store.Sound(g)
    modifies store
    ensures store.Sound(g) && old(store.trace) <= store.trace && Grows(old(store.tree), store.tree)
    ensures SameList(old(store.tree), store.tree)
    ensures ok ==> forall i :: 0 <= i < |layers| ==> Blob(layers[i]) in store.tree
    ensures (forall i :: 0 <= i < |layers| ==> layers[i] in layout) ==> ok
  {
    for k := 0 to |layers|
      invariant store.Sound(g) && old(store.trace) <= store.trace && Grows(old(store.tree), store.tree)
      invariant SameList(old(store.tree), store.tree)
      invariant forall i :: 0 <= i < k ==> Blob(layers[i]) in store.tree
    {
      ok := CopyBlob(store, layout, layers[k], g);
      if !ok { return; }
    }
    ok := true;
  }

  /** lay_manifest. */
  method LayManifest(store: Store, layout: Layout, digest: Name, data: Data, doc: Doc, ghost g: Goal) returns (ok: bool)
    requires store.Sound(g) && g.env.hash(data) == digest && !g.env.isIndex(data) && doc == g.env.parse(data)
    modifies store
    ensures store.Sound(g) && old(store.trace) <= store.trace && Grows(old(store.tree), store.tree)
    ensures SameList(old(store.tree), store.tree)
    ensures ok ==> ManifestComplete(store.tree, doc) && ChildComplete(g.env, store.tree, digest)
    ensures ok ==> Resolve(store.tree, digest) == Some(Served(Manifest, data))
    ensures ManifestInLayout(layout, doc) ==> ok
  {
    store.WriteAtomic(Ref(Manifest, digest), data, g);
    ghost var t := store.tree;
    if doc.config == None { return false; }
    ok := CopyBlob(store, layout, doc.config.value, g);
    if !ok { return; }
    ok := CopyLayers(store, layout, doc.layers, g);
    if ok {
      assert Resolve(t, digest) == Some(Served(Manifest, data)) by { assert Ref(Index, digest) !in t; }
      ResolveKept(g.env, t, store.tree, digest);
    }
  }

  /** One turn of the loop over an index's children. */
  method LayChild(store: Store, layout: Layout, child: Descriptor, env: Env, ghost g: Goal) returns (ok: bool)
    requires store.Sound(g) && env == g.env && HonestChild(env, layout, child)
    modifies store
    ensures store.Sound(g) && old(store.trace) <= store.trace && Grows(old(store.tree), store.tree)
    ensures SameList(old(store.tree), store.tree)
    ensures ok ==> ChildComplete(env, store.tree, child.digest)
    ensures ChildInLayout(env, layout, child) ==> ok
  {
    var read := ReadBlob(env, layout, child.digest);
    if read == None { return false; }
    var doc := env.parse(read.value);
    if TypeOf(child, doc) == IndexType { return false; }
    ok := LayManifest(store, layout, child.digest, read.value, doc, g);
  }

  method LayIndex(store: Store, layout: Layout, digest: Name, data: Data, env: Env, ghost g: Goal) returns (ok: bool)
    requires store.Sound(g) && env == g.env && env.hash(data) == digest && env.isIndex(data)
    requires HonestChildren(env, layout, env.parse(data).manifests)
    modifies store
    ensures store.Sound(g) && old(store.trace) <= store.trace && Grows(old(store.tree), store.tree)
    ensures SameList(old(store.tree), store.tree)
    ensures ok ==> Complete(env, store.tree, Served(Index, data))
    ensures ok ==> Resolve(store.tree, digest) == Some(Served(Index, data))
    ensures InLayout(env, layout, Served(Index, data)) ==> ok
  {
    store.WriteAtomic(Ref(Index, digest), data, g);
    ghost var t := store.tree;
    ok := LayChildren(store, layout, env.parse(data).manifests, env, g);
    ResolveKept(env, t, store.tree, digest);
  }

  /** The loop over the children of an index. */
  method LayChildren(store: Store, layout: Layout, children: seq<Descriptor>, env: Env, ghost g: Goal)
    returns (ok: bool)
    requires store.Sound(g) && env == g.env && HonestChildren(env, layout, children)
    modifies store
    ensures store.Sound(g) && old(store.trace) <= store.trace && Grows(old(store.tree), store.tree)
    ensures SameList(old(store.tree), store.tree)
    ensures ok ==> forall i :: 0 <= i < |children| ==> ChildComplete(env, store.tree, children[i].digest)
    ensures (forall i :: 0 <= i < |children| ==> ChildInLayout(env, layout, children[i])) ==> ok
  {
    for k := 0 to |children|
      invariant store.Sound(g) && old(store.trace) <= store.trace && Grows(old(store.tree), store.tree)
      invariant SameList(old(store.tree), store.tree)
      invariant forall i :: 0 <= i < k ==> ChildComplete(env, store.tree, children[i].digest)
    {
      ghost var t := store.tree;
      ok := LayChild(store, layout, children[k], env, g);
      if !ok { return; }
      forall i | 0 <= i < k ensures ChildComplete(env, store.tree, children[i].digest) {
        ChildKept(env, t, store.tree, children[i].digest);
      }
    }
    ok := true;
  }

  // ----- pointing the tags

  method PointTag(store: Store, tag: Name, image: Served, ghost g: Goal)
    requires store.Sound(g) && image == g.image && IsTag(tag) && tag in g.tags
    requires Complete(g.env, store.tree, image) && InPlace(g, store.tree)
    modifies store
    ensures store.Sound(g) && old(store.trace) <= store.trace
    ensures Complete(g.env, store.tree, image) && InPlace(g, store.tree)
    ensures Resolve(store.tree, tag) == Some(image)
    ensures forall ref :: ref != tag ==> Resolve(store.tree, ref) == Resolve(old(store.tree), ref)
    ensures SameList(old(store.tree), store.tree)
  {
    ghost var t0 := store.tree;
    store.WriteAtomic(Ref(image.kind, tag), image.data, g);
    ghost var t1 := store.tree;
    CompleteKept(g.env, t0, t1, image);
    InPlaceKept(g, t0, t1);
    var other := if image.kind == Index then Manifest else Index;
    store.RemoveOther(tag, other, g);
    CompleteKept(g.env, t1, store.tree, image);
    InPlaceKept(g, t1, store.tree);
    OtherRefs(t0, t1, image.kind, tag);
    OtherRefs(t1, store.tree, other, tag);
  }

  lemma OtherRefs(t: Tree, t': Tree, k: Kind, tag: Name)
    requires AgreeBut(t, t', Ref(k, tag))
    ensures forall ref :: ref != tag ==> Resolve(t', ref) == Resolve(t, ref)
    ensures SameList(t, t')
  {
    forall ref | ref != tag ensures Resolve(t', ref) == Resolve(t, ref) {
      assert Ref(Index, ref) in t <==> Ref(Index, ref) in t';
      assert Ref(Manifest, ref) in t <==> Ref(Manifest, ref) in t';
    }
  }

  method PointTags(store: Store, tags: seq<Name>, image: Served, ghost g: Goal)
    requires store.Sound(g) && image == g.image && tags == g.tags
    requires Complete(g.env, store.tree, image) && InPlace(g, store.tree)
    requires forall i :: 0 <= i < |tags| ==> IsTag(tags[i])
    modifies store
    ensures store.Sound(g) && old(store.trace) <= store.trace && InPlace(g, store.tree)
    ensures forall tag :: tag in tags ==> Resolve(store.tree, tag) == Some(image)
    ensures SameList(old(store.tree), store.tree)
  {
    for k := 0 to |tags|
      invariant store.Sound(g) && old(store.trace) <= store.trace
      invariant Complete(g.env, store.tree, image) && InPlace(g, store.tree)
      invariant forall i :: 0 <= i < k ==> Resolve(store.tree, tags[i]) == Some(image)
      invariant SameList(old(store.tree), store.tree)
    {
      PointTag(store, tags[k], image, g);
    }
  }

  // ----- the tags list

  const NAME_LE: (Name, Name) -> bool := (a: Name, b: Name) => Cmp(a, b) <= 0

  lemma NamesOrdered()
    ensures Total(NAME_LE)
  {
    forall a: Name, b: Name ensures NAME_LE(a, b) || NAME_LE(b, a) { CmpSwap(a, b); }
    forall a: Name, b: Name, c: Name | NAME_LE(a, b) && NAME_LE(b, c) ensures NAME_LE(a, c) { CmpTrans(a, b, c); }
  }

  ghost predicate Distinct(s: seq<Name>) { forall x :: multiset(s)[x] <= 1 }

  ghost predicate Union(r: seq<Name>, a: seq<Name>, b: seq<Name>)
  {
    (forall x :: x in r <==> x in a || x in b) && (Distinct(a) ==> Distinct(r))
  }

  method MergeTags(listed: seq<Name>, tags: seq<Name>) returns (r: seq<Name>)
    ensures SortedBy(NAME_LE, r) && Union(r, listed, tags)
  {
    var all := listed;
    for k := 0 to |tags|
      invariant Union(all, listed, tags[..k])
    {
      assert tags[..k + 1] == tags[..k] + [tags[k]];
      if tags[k] !in all { all := all + [tags[k]]; }
    }
    assert tags[..|tags|] == tags;
    r := Sort(NAME_LE, all);
    NamesOrdered();
    SortFacts(NAME_LE, all);
    UnionPermuted(r, all, listed, tags);
  }

  lemma UnionPermuted(r: seq<Name>, all: seq<Name>, a: seq<Name>, b: seq<Name>)
    requires Permutes(r, all) && Union(all, a, b)
    ensures Union(r, a, b)
  {
    forall x ensures x in r <==> x in all { PermutesMember(r, all, x); }
  }

  function ListedIn(env: Env, t: Tree): seq<Name> { if TagsList in t then env.listed(t[TagsList]) else [] }

  method WriteList(store: Store, tags: seq<Name>, env: Env, ghost g: Goal)
    requires store.Sound(g) && env == g.env
    requires forall tag :: tag in tags ==> IsTag(tag) && Resolve(store.tree, tag).Some?
    modifies store
    ensures store.Sound(g) && old(store.trace) <= store.trace
    ensures SortedBy(NAME_LE, ListedIn(env, store.tree))
    ensures Union(ListedIn(env, store.tree), ListedIn(env, old(store.tree)), tags)
    ensures forall ref :: Resolve(store.tree, ref) == Resolve(old(store.tree), ref)
    ensures Grows(old(store.tree), store.tree)
  {
    var listed := if TagsList in store.tree then env.listed(store.tree[TagsList]) else [];
    var r := MergeTags(listed, tags);
    ghost var t := store.tree;
    assert Good(env, t);
    store.WriteAtomic(TagsList, env.encode(r), g);
    forall ref ensures Resolve(store.tree, ref) == Resolve(t, ref) {
      assert Ref(Index, ref) in t <==> Ref(Index, ref) in store.tree;
      assert Ref(Manifest, ref) in t <==> Ref(Manifest, ref) in store.tree;
    }
  }

  // ----- the run

  /** Every state the tree went through can be served, and no tag is ever anything but what
      it was or the new image. */
  ghost predicate AlwaysServable(env: Env, start: Tree, tags: seq<Name>, image: Served, trace: seq<Tree>)
  {
    forall i :: 0 <= i < |trace| ==> Ok(Goal(env, start, tags, image), trace[i])
  }

  lemma TraceServable(g: Goal, trace: seq<Tree>)
    requires AllOk(g, trace)
    ensures AlwaysServable(g.env, g.start, g.tags, g.image, trace)
  {
    forall i | 0 <= i < |trace| ensures Ok(g, trace[i]) { AllOkMeaning(g, trace, i); }
  }

  method LayImage(store: Store, layout: Layout, image: Served, env: Env, ghost g: Goal) returns (ok: bool)
    requires store.Sound(g) && env == g.env && image == g.image && Honest(env, layout, image)
    modifies store
    ensures store.Sound(g) && old(store.trace) <= store.trace && Grows(old(store.tree), store.tree)
    ensures SameList(old(store.tree), store.tree)
    ensures ok ==> Complete(env, store.tree, image) && InPlace(g, store.tree)
    ensures InLayout(env, layout, image) ==> ok
  {
    var digest := env.hash(image.data);
    if image.kind == Index {
      ok := LayIndex(store, layout, digest, image.data, env, g);
    } else {
      ok := LayManifest(store, layout, digest, image.data, env.parse(image.data), g);
    }
  }

  /** What a finished run leaves: the requested tags serve the new image, and so does its
      digest; every other tag serves what it did, and the list is the sorted union. */
  ghost predicate Published(env: Env, start: Tree, tags: seq<Name>, image: Served, t: Tree)
  {
    && (forall tag :: tag in tags ==> Resolve(t, tag) == Some(image))
    && Resolve(t, env.hash(image.data)) == Some(image)
    && (forall ref :: IsTag(ref) && ref !in tags ==> Resolve(t, ref) == Resolve(start, ref))
    && SortedBy(NAME_LE, ListedIn(env, t)) && Union(ListedIn(env, t), ListedIn(env, start), tags)
  }

  lemma PublishedNow(g: Goal, t: Tree)
    requires Ok(g, t) && InPlace(g, t) && (forall tag :: tag in g.tags ==> Resolve(t, tag) == Some(g.image))
    requires SortedBy(NAME_LE, ListedIn(g.env, t)) && Union(ListedIn(g.env, t), ListedIn(g.env, g.start), g.tags)
    ensures Published(g.env, g.start, g.tags, g.image, t)
  {
  }

  /** Lay the image, point the tags, write the list. */
  method PublishImage(store: Store, layout: Layout, tags: seq<Name>, image: Served, env: Env) returns (ok: bool)
    requires env.Ideal() && Good(env, store.tree) && store.trace == [store.tree]
    requires forall tag :: tag in tags ==> IsTag(tag)
    requires Honest(env, layout, image)
    modifies store
    ensures store.trace != [] && store.trace[|store.trace| - 1] == store.tree
    ensures AlwaysServable(env, old(store.tree), tags, image, store.trace)
    ensures ok ==> Published(env, old(store.tree), tags, image, store.tree)
    ensures InLayout(env, layout, image) ==> ok
  {
    ghost var g := Goal(env, store.tree, tags, image);
    assert store.trace[..0] == [];
    ok := LayImage(store, layout, image, env, g);
    if ok {
      PointTags(store, tags, image, g);
      WriteList(store, tags, env, g);
      PublishedNow(g, store.tree);
    }
    TraceServable(g, store.trace);
  }

  /** main: nothing is written unless the arguments name one image; then every intermediate
      state is servable, and a run over a whole layout publishes it. */
  method Publish(store: Store, layout: Layout, entries: seq<Entry>, ref: Name, tags: seq<Name>, env: Env)
    returns (ok: bool)
    requires env.Ideal() && Good(env, store.tree) && store.trace == [store.tree]
    requires forall tag :: tag in tags ==> IsTag(tag)
    requires var image := Chosen(env, layout, entries, ref); image.Some? ==> Honest(env, layout, image.value)
    modifies store
    ensures tags == [] || Chosen(env, layout, entries, ref).None? ==> !ok && store.trace == old(store.trace)
    ensures tags != [] && Chosen(env, layout, entries, ref).Some? ==>
      var image := Chosen(env, layout, entries, ref).value;
      && AlwaysServable(env, old(store.tree), tags, image, store.trace)
      && (ok ==> Published(env, old(store.tree), tags, image, store.tree))
      && (InLayout(env, layout, image) ==> ok)
  {
    if tags == [] { return false; }
    var found := Matching(entries, ref);
    if |found| != 1 { return false; }
    var desc := found[0].desc;
    var read := ReadBlob(env, layout, desc.digest);
    if read == None { return false; }
    match TypeOf(desc, env.parse(read.value)) {
      case OtherType =>
        ok := false;
      case IndexType =>
        ok := PublishImage(store, layout, tags, Served(Index, read.value), env);
      case ManifestType =>
        ok := PublishImage(store, layout, tags, Served(Manifest, read.value), env);
    }
  }

  // ----- which image is chosen

  /** The one entry the arguments name: the only one there is, or the only one of that name. */
  ghost predicate Named(entries: seq<Entry>, ref: Name, i: nat)
  {
    && i < |entries|
    && if ref == [] then |entries| == 1
       else
         && entries[i].refName == Some(ref)
         && forall j :: 0 <= j < |entries| && j != i ==> entries[j].refName != Some(ref)
  }

  lemma {:induction false} FilterOne(keep: Entry -> bool, entries: seq<Entry>)
    ensures |Filter(keep, entries)| == 0 <==> forall j :: 0 <= j < |entries| ==> !keep(entries[j])
    ensures |Filter(keep, entries)| == 1 ==>
      exists i: nat :: OnlyKept(keep, entries, i) && Filter(keep, entries)[0] == entries[i]
  {
    if entries != [] {
      var rest := entries[1..];
      FilterOne(keep, rest);
      assert forall j :: 0 < j < |entries| ==> entries[j] == rest[j - 1];
      if keep(entries[0]) {
        assert |Filter(keep, entries)| == 1 ==> OnlyKept(keep, entries, 0);
      } else if |Filter(keep, rest)| == 1 {
        var i: nat :| OnlyKept(keep, rest, i) && Filter(keep, rest)[0] == rest[i];
        assert OnlyKept(keep, entries, i + 1);
      }
    }
  }

  ghost predicate OnlyKept(keep: Entry -> bool, entries: seq<Entry>, i: nat)
  {
    i < |entries| && keep(entries[i]) && forall j :: 0 <= j < |entries| && j != i ==> !keep(entries[j])
  }

  lemma {:induction false} FilterOnly(keep: Entry -> bool, entries: seq<Entry>, i: nat)
    requires OnlyKept(keep, entries, i)
    ensures Filter(keep, entries) == [entries[i]]
  {
    var rest := entries[1..];
    assert forall j :: 0 < j < |entries| ==> entries[j] == rest[j - 1];
    if i == 0 {
      FilterOne(keep, rest);
    } else {
      FilterOnly(keep, rest, i - 1);
    }
  }

  lemma MatchingIs(entries: seq<Entry>, ref: Name)
    ensures forall i: nat :: Named(entries, ref, i) ==> Matching(entries, ref) == [entries[i]]
    ensures |Matching(entries, ref)| == 1 ==> exists i: nat :: Named(entries, ref, i)
  {
    if ref != [] {
      var keep := (e: Entry) => e.refName == Some(ref);
      FilterOne(keep, entries);
      forall i: nat | Named(entries, ref, i) ensures Matching(entries, ref) == [entries[i]] {
        FilterOnly(keep, entries, i);
      }
      if i: nat :| OnlyKept(keep, entries, i) { assert Named(entries, ref, i); }
    } else if |entries| == 1 {
      assert Named(entries, ref, 0);
    }
  }

  /** A run publishes exactly the blob of the one entry its arguments name, when the layout has it
      whole, as the kind the entry or else the document gives. */
  lemma ChosenMeans(env: Env, layout: Layout, entries: seq<Entry>, ref: Name, image: Served)
    ensures Chosen(env, layout, entries, ref) == Some(image) <==>
      exists i: nat :: Named(entries, ref, i) && IsImage(env, layout, entries[i].desc, image)
  {
    MatchingIs(entries, ref);
  }

  ghost predicate IsImage(env: Env, layout: Layout, d: Descriptor, image: Served)
  {
    var kind := if d.mediaType.Some? then d.mediaType.value else env.parse(image.data).mediaType;
    && d.digest in layout && image.data == layout[d.digest] && env.hash(image.data) == d.digest
    && (kind == IndexType || kind == ManifestType) && (image.kind == Index <==> kind == IndexType)
  }

  // ----- why descriptors have to be honest

  /** Some visible tag is at an index with this child. */
  ghost predicate IsChild(env: Env, t: Tree, c: Name)
  {
    exists tag, i: nat :: IsTag(tag) && HasChild(env, t, tag, i, c)
  }

  ghost predicate HasChild(env: Env, t: Tree, tag: Name, i: nat, c: Name)
  {
    var r := Resolve(t, tag);
    && r.Some? && r.value.kind == Index
    && i < |env.parse(r.value.data).manifests| && env.parse(r.value.data).manifests[i].digest == c
  }

  /** A file under another name leaves a reference alone. */
  lemma ResolveElsewhere(t: Tree, k: Kind, c: Name, data: Data, ref: Name)
    requires ref != c
    ensures Resolve(t[Ref(k, c) := data], ref) == Resolve(t, ref)
  {
  }

  /** A manifest filed as an index: every visible tag stays complete if and only if none is at
      an index that has the manifest as a child. */
  lemma IndexFileIsExact(env: Env, t: Tree, c: Name, data: Data)
    requires TagsComplete(env, t) && !IsTag(c)
    ensures TagsComplete(env, t[Ref(Index, c) := data]) <==> !IsChild(env, t, c)
  {
    var t' := t[Ref(Index, c) := data];
    if IsChild(env, t, c) {
      var tag, i: nat :| IsTag(tag) && HasChild(env, t, tag, i, c);
      ResolveElsewhere(t, Index, c, data, tag);
      assert !ChildComplete(env, t', env.parse(Resolve(t, tag).value.data).manifests[i].digest);
    } else {
      forall tag | IsTag(tag) && Resolve(t', tag).Some? ensures Complete(env, t', Resolve(t', tag).value) {
        ResolveElsewhere(t, Index, c, data, tag);
        CompleteElsewhere(env, t, c, data, tag);
      }
    }
  }

  lemma CompleteElsewhere(env: Env, t: Tree, c: Name, data: Data, tag: Name)
    requires IsTag(tag) && Resolve(t, tag).Some? && Complete(env, t, Resolve(t, tag).value)
    requires forall i: nat :: !HasChild(env, t, tag, i, c)
    ensures Complete(env, t[Ref(Index, c) := data], Resolve(t, tag).value)
  {
    var s := Resolve(t, tag).value;
    var ds := env.parse(s.data).manifests;
    if s.kind == Index {
      forall i | 0 <= i < |ds| ensures ChildComplete(env, t[Ref(Index, c) := data], ds[i].digest) {
        assert !HasChild(env, t, tag, i, c);
        ResolveElsewhere(t, Index, c, data, ds[i].digest);
      }
    }
  }

  /** Take any servable tree with a tag at an index, a child of that index, and a layout that
      holds the child but calls it an index.  The run picks the child as its image, and the
      first file it writes leaves the tag where it was, complete before and not after. */
  lemma DishonestRunBreaksTag(env: Env, t: Tree, tag: Name, i: nat, c: Name, layout: Layout)
    requires env.Ideal() && Good(env, t) && IsTag(tag) && HasChild(env, t, tag, i, c)
    requires c in layout && env.hash(layout[c]) == c
    ensures var entry := Entry(Descriptor(c, Some(IndexType)), None);
      Chosen(env, layout, [entry], []) == Some(Served(Index, layout[c]))
    ensures var s, t' := Resolve(t, tag).value, t[Ref(Index, c) := layout[c]];
      !Honest(env, layout, Served(Index, layout[c])) && Resolve(t', tag) == Some(s) && Complete(env, t, s)
      && !Complete(env, t', s)
  {
    var s, t' := Resolve(t, tag).value, t[Ref(Index, c) := layout[c]];
    assert ChildComplete(env, t, env.parse(s.data).manifests[i].digest);
    ResolveElsewhere(t, Index, c, layout[c], tag);
    assert !ChildComplete(env, t', env.parse(s.data).manifests[i].digest);
  }

  /** An index with a child that is itself a published index, called a manifest: the run lays the
      child out like any other, and yet no tree it can reach serves the image completely. */
  lemma DishonestChildStaysIncomplete(env: Env, t: Tree, t': Tree, layout: Layout, image: Served, i: nat)
    requires env.Ideal() && Addressed(env, t) && Grows(t, t')
    requires image.kind == Index && i < |env.parse(image.data).manifests|
    requires var d := env.parse(image.data).manifests[i];
      && !IsTag(d.digest) && Ref(Index, d.digest) in t && ReadBlob(env, layout, d.digest).Some?
      && TypeOf(d, env.parse(layout[d.digest])) == ManifestType
    ensures !Honest(env, layout, image) && !Complete(env, t', image)
  {
    var c := env.parse(image.data).manifests[i].digest;
    assert layout[c] == t[Ref(Index, c)];
    assert !HonestChild(env, layout, env.parse(image.data).manifests[i]);
    assert !ChildComplete(env, t', c);
  }
}
