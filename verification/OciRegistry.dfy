/** The static registry publisher: a sequence of file-tree steps, every one of which must
    leave every visible tag pullable. */
module OciRegistry {
  import opened Wrappers
  import opened Bytes

  type Name = seq<byte>
  type Data = seq<byte>
  /** A digest is "<algorithm>:<hex>"; a tag has no colon. */
  predicate IsTag(ref: Name) { COLON !in ref }

  // ----- documents

  datatype MediaType = IndexType | ManifestType | OtherType
  datatype Descriptor = Descriptor(digest: Name, mediaType: Option<MediaType>)
  datatype Doc = Doc(mediaType: MediaType, manifests: seq<Descriptor>, config: Option<Name>, layers: seq<Name>)

  /** What is outside: the digest function, the JSON readers and writer, and what a
      document is (an index or not), whatever a descriptor calls it. */
  datatype Env = Env(hash: Data -> Name, parse: Data -> Doc, isIndex: Data -> bool,
                     listed: Data -> seq<Name>, encode: seq<Name> -> Data)
  {
    /** SHA-256 without collisions; the tags list reads back as written. */
    ghost predicate Ideal()
    {
      && (forall a, b :: hash(a) == hash(b) ==> a == b)
      && (forall a :: !IsTag(hash(a)))
      && (forall tags :: listed(encode(tags)) == tags)
    }
  }

  /** The descriptor's media type, else the document's own. */
  function TypeOf(d: Descriptor, doc: Doc): MediaType
  {
    if d.mediaType.Some? then d.mediaType.value else doc.mediaType
  }

  // ----- the tree

  datatype Kind = Index | Manifest
  datatype Path = Ref(kind: Kind, name: Name) | Blob(digest: Name) | TagsList | Tmp(of: Path)
  type Tree = map<Path, Data>

  datatype Served = Served(kind: Kind, data: Data)

  /** nginx: the .idx file first, then the .man file. */
  function Resolve(t: Tree, ref: Name): Option<Served>
  {
    if Ref(Index, ref) in t then Some(Served(Index, t[Ref(Index, ref)]))
    else if Ref(Manifest, ref) in t then Some(Served(Manifest, t[Ref(Manifest, ref)]))
    else None
  }

  ghost predicate ManifestComplete(t: Tree, doc: Doc)
  {
    && doc.config.Some? && Blob(doc.config.value) in t
    && forall i :: 0 <= i < |doc.layers| ==> Blob(doc.layers[i]) in t
  }

  /** A child is named by digest and resolves, index-first like anything else, to a manifest that is complete. */
  ghost predicate ChildComplete(env: Env, t: Tree, digest: Name)
  {
    var r := Resolve(t, digest);
    !IsTag(digest) && r.Some? && r.value.kind == Manifest && ManifestComplete(t, env.parse(r.value.data))
  }

  /** Everything a pull of this file goes on to ask for is there. */
  ghost predicate Complete(env: Env, t: Tree, s: Served)
  {
    var doc := env.parse(s.data);
    match s.kind
    case Manifest => ManifestComplete(t, doc)
    case Index => forall i :: 0 <= i < |doc.manifests| ==> ChildComplete(env, t, doc.manifests[i].digest)
  }

  /** Files under a digest hold the document of that digest, and are of its kind. */
  ghost predicate Addressed(env: Env, t: Tree)
  {
    forall k, d :: Ref(k, d) in t && !IsTag(d) ==>
      env.hash(t[Ref(k, d)]) == d && (env.isIndex(t[Ref(k, d)]) <==> k == Index)
  }

  ghost predicate TagsComplete(env: Env, t: Tree)
  {
    forall ref :: IsTag(ref) && Resolve(t, ref).Some? ==> Complete(env, t, Resolve(t, ref).value)
  }

  ghost predicate ListResolves(env: Env, t: Tree)
  {
    TagsList in t ==> forall tag :: tag in env.listed(t[TagsList]) ==> IsTag(tag) && Resolve(t, tag).Some?
  }

  /** A tree that may be served. */
  ghost predicate Good(env: Env, t: Tree)
  {
    Addressed(env, t) && TagsComplete(env, t) && ListResolves(env, t)
  }

  // ----- one run

  /** What a run started from, which tags it moves, and to what. */
  datatype Goal = Goal(env: Env, start: Tree, tags: seq<Name>, image: Served)

  /** The new image can be pulled by its digest. */
  ghost predicate InPlace(g: Goal, t: Tree) { Resolve(t, g.env.hash(g.image.data)) == Some(g.image) }

  /** Every tag still is what it was, or is a requested one and already the new image, which
      then is in place under its digest too. */
  ghost predicate Switching(g: Goal, t: Tree)
  {
    forall ref :: IsTag(ref) ==>
      || Resolve(t, ref) == Resolve(g.start, ref)
      || (ref in g.tags && Resolve(t, ref) == Some(g.image) && InPlace(g, t))
  }

  ghost predicate Ok(g: Goal, t: Tree)
  {
    Good(g.env, t) && Switching(g, t)
  }

  /** All states of a run so far are servable. */
  ghost predicate AllOk(g: Goal, trace: seq<Tree>)
  {
    trace == [] || (Ok(g, trace[|trace| - 1]) && AllOk(g, trace[..|trace| - 1]))
  }

  lemma {:induction false} AllOkMeaning(g: Goal, trace: seq<Tree>, i: nat)
    requires AllOk(g, trace) && i < |trace|
    ensures Ok(g, trace[i])
  {
    if i < |trace| - 1 { AllOkMeaning(g, trace[..|trace| - 1], i); }
  }

  /** Nothing under a digest goes away or changes. */
  ghost predicate Grows(t: Tree, t': Tree)
  {
    && (forall d :: Blob(d) in t ==> Blob(d) in t')
    && (forall k, d :: Ref(k, d) in t && !IsTag(d) ==> Ref(k, d) in t' && t'[Ref(k, d)] == t[Ref(k, d)])
  }

  lemma ResolveKept(env: Env, t: Tree, t': Tree, d: Name)
    requires env.Ideal() && Addressed(env, t) && Addressed(env, t') && Grows(t, t') && !IsTag(d) && Resolve(t, d).Some?
    ensures Resolve(t', d) == Resolve(t, d)
  {
    var s := Resolve(t, d).value;
    assert Ref(s.kind, d) in t && t'[Ref(s.kind, d)] == s.data;
    assert s.kind == Manifest ==> Ref(Index, d) !in t';
  }

  lemma ChildKept(env: Env, t: Tree, t': Tree, d: Name)
    requires env.Ideal() && Addressed(env, t) && Addressed(env, t') && Grows(t, t')
    requires ChildComplete(env, t, d)
    ensures ChildComplete(env, t', d)
  {
    ResolveKept(env, t, t', d);
  }

  lemma CompleteKept(env: Env, t: Tree, t': Tree, s: Served)
    requires env.Ideal() && Addressed(env, t) && Addressed(env, t') && Grows(t, t')
    requires Complete(env, t, s)
    ensures Complete(env, t', s)
  {
    var doc := env.parse(s.data);
    if s.kind == Index {
      forall i | 0 <= i < |doc.manifests| ensures ChildComplete(env, t', doc.manifests[i].digest) {
        ChildKept(env, t, t', doc.manifests[i].digest);
      }
    }
  }

  /** A tag after a step: as before, or a requested one that now serves the new image. */
  ghost predicate Moved(g: Goal, t: Tree, t': Tree, ref: Name)
  {
    || Resolve(t', ref) == Resolve(t, ref)
    || (ref in g.tags && Resolve(t', ref) == Some(g.image) && Complete(g.env, t, g.image) && InPlace(g, t))
  }

  /** A step that grows the tree and moves tags only to a complete image keeps it servable. */
  lemma Advance(g: Goal, t: Tree, t': Tree)
    requires g.env.Ideal() && Ok(g, t) && Grows(t, t') && Addressed(g.env, t')
    requires forall ref :: IsTag(ref) ==> Moved(g, t, t', ref)
    requires (TagsList in t' ==> TagsList in t && t'[TagsList] == t[TagsList]) || ListResolves(g.env, t')
    ensures Ok(g, t')
  {
    forall ref | IsTag(ref) && Resolve(t', ref).Some? ensures Complete(g.env, t', Resolve(t', ref).value) {
      assert Moved(g, t, t', ref);
      CompleteKept(g.env, t, t', Resolve(t', ref).value);
    }
    forall ref | IsTag(ref)
      ensures Resolve(t', ref) == Resolve(g.start, ref)
           || (ref in g.tags && Resolve(t', ref) == Some(g.image) && InPlace(g, t'))
      ensures Resolve(t, ref).Some? ==> Resolve(t', ref).Some?
    {
      assert Moved(g, t, t', ref);
      if InPlace(g, t) { InPlaceKept(g, t, t'); }
    }
  }

  lemma InPlaceKept(g: Goal, t: Tree, t': Tree)
    requires g.env.Ideal() && Addressed(g.env, t) && Addressed(g.env, t') && Grows(t, t') && InPlace(g, t)
    ensures InPlace(g, t')
  {
    ResolveKept(g.env, t, t', g.env.hash(g.image.data));
  }

  /** The trees agree on all that is served, except perhaps at p. */
  ghost predicate AgreeBut(t: Tree, t': Tree, p: Path)
  {
    forall q: Path :: !q.Tmp? && q != p ==> (q in t <==> q in t') && (q in t ==> t[q] == t'[q])
  }

  lemma TmpStep(g: Goal, t: Tree, t': Tree, p: Path)
    requires g.env.Ideal() && Ok(g, t) && AgreeBut(t, t', Tmp(p))
    ensures Ok(g, t') && Grows(t, t')
  {
    forall ref ensures Resolve(t', ref) == Resolve(t, ref) {
      assert Ref(Index, ref) in t <==> Ref(Index, ref) in t';
      assert Ref(Manifest, ref) in t <==> Ref(Manifest, ref) in t';
    }
    Advance(g, t, t');
  }

  lemma BlobStep(g: Goal, t: Tree, t': Tree, d: Name)
    requires g.env.Ideal() && Ok(g, t) && AgreeBut(t, t', Blob(d)) && Blob(d) in t'
    ensures Ok(g, t') && Grows(t, t')
  {
    forall ref ensures Resolve(t', ref) == Resolve(t, ref) {
      assert Ref(Index, ref) in t <==> Ref(Index, ref) in t';
      assert Ref(Manifest, ref) in t <==> Ref(Manifest, ref) in t';
    }
    Advance(g, t, t');
  }

  lemma DigestStep(g: Goal, t: Tree, t': Tree, k: Kind, d: Name)
    requires g.env.Ideal() && Ok(g, t) && AgreeBut(t, t', Ref(k, d)) && Ref(k, d) in t'
    requires g.env.hash(t'[Ref(k, d)]) == d && (g.env.isIndex(t'[Ref(k, d)]) <==> k == Index)
    ensures Ok(g, t') && Grows(t, t')
  {
    forall ref | IsTag(ref) ensures Resolve(t', ref) == Resolve(t, ref) {
      assert ref != d;
      assert Ref(Index, ref) in t <==> Ref(Index, ref) in t';
      assert Ref(Manifest, ref) in t <==> Ref(Manifest, ref) in t';
    }
    Advance(g, t, t');
  }

  lemma TagStep(g: Goal, t: Tree, t': Tree, k: Kind, tag: Name)
    requires g.env.Ideal() && Ok(g, t) && IsTag(tag) && AgreeBut(t, t', Ref(k, tag))
    requires Moved(g, t, t', tag)
    ensures Ok(g, t') && Grows(t, t')
  {
    forall ref | IsTag(ref) ensures Moved(g, t, t', ref) {
      if ref != tag {
        assert Ref(Index, ref) in t <==> Ref(Index, ref) in t';
        assert Ref(Manifest, ref) in t <==> Ref(Manifest, ref) in t';
      }
    }
    Advance(g, t, t');
  }

  lemma ListStep(g: Goal, t: Tree, t': Tree)
    requires g.env.Ideal() && Ok(g, t) && AgreeBut(t, t', TagsList) && TagsList in t'
    requires forall tag :: tag in g.env.listed(t'[TagsList]) ==> IsTag(tag) && Resolve(t, tag).Some?
    ensures Ok(g, t') && Grows(t, t') && forall ref :: Resolve(t', ref) == Resolve(t, ref)
  {
    forall ref ensures Resolve(t', ref) == Resolve(t, ref) {
      assert Ref(Index, ref) in t <==> Ref(Index, ref) in t';
      assert Ref(Manifest, ref) in t <==> Ref(Manifest, ref) in t';
    }
    Advance(g, t, t');
  }

  // ----- writing

  /** What may be written where, so that the tree stays servable. */
  ghost predicate May(g: Goal, t: Tree, p: Path, data: Data)
  {
    match p
    case Tmp(_) => false
    case Blob(_) => true
    case TagsList => forall tag :: tag in g.env.listed(data) ==> IsTag(tag) && Resolve(t, tag).Some?
    case Ref(k, n) =>
      if IsTag(n) then n in g.tags && g.image == Served(k, data) && Complete(g.env, t, g.image) && InPlace(g, t)
      else g.env.hash(data) == n && (g.env.isIndex(data) <==> k == Index)
  }

  lemma WriteStep(g: Goal, t: Tree, t': Tree, p: Path, data: Data)
    requires g.env.Ideal() && Ok(g, t) && May(g, t, p, data) && AgreeBut(t, t', p) && p in t' && t'[p] == data
    ensures Ok(g, t') && Grows(t, t')
  {
    match p
    case Blob(d) => BlobStep(g, t, t', d);
    case TagsList => ListStep(g, t, t');
    case Ref(k, n) =>
      if IsTag(n) {
        assert Ref(Index, n) != p ==> (Ref(Index, n) in t <==> Ref(Index, n) in t');
        TagStep(g, t, t', k, n);
      } else {
        DigestStep(g, t, t', k, n);
      }
    case Tmp(_) =>
  }

  lemma MayKept(g: Goal, t: Tree, t': Tree, q: Path, p: Path, data: Data)
    requires g.env.Ideal() && Ok(g, t) && Ok(g, t') && Grows(t, t') && AgreeBut(t, t', Tmp(q)) && May(g, t, p, data)
    ensures May(g, t', p, data)
  {
    forall ref ensures Resolve(t', ref) == Resolve(t, ref) {
      assert Ref(Index, ref) in t <==> Ref(Index, ref) in t';
      assert Ref(Manifest, ref) in t <==> Ref(Manifest, ref) in t';
    }
    if p.Ref? && IsTag(p.name) {
      CompleteKept(g.env, t, t', g.image);
      InPlaceKept(g, t, t');
    }
  }

  function Renamed(t: Tree, p: Path): Tree
    requires Tmp(p) in t
  {
    (t - {Tmp(p)})[p := t[Tmp(p)]]
  }

  /** The output tree, and every state it has been through. */
  class Store {
    var tree: Tree
    ghost var trace: seq<Tree>

    constructor (t: Tree)
      ensures tree == t && trace == [t]
    {
      tree, trace := t, [t];
    }

    ghost predicate Sound(g: Goal)
      reads this
    {
      g.env.Ideal() && trace != [] && trace[|trace| - 1] == tree && AllOk(g, trace)
    }

    /** One file-system call. */
    method Step(t: Tree, ghost g: Goal)
      requires Sound(g) && Ok(g, t)
      modifies this
      ensures Sound(g) && tree == t && trace == old(trace) + [t]
    {
      tree, trace := t, trace + [t];
      assert trace[..|trace| - 1] == old(trace);
    }

    /** open for writing, then write. */
    method Stage(p: Path, data: Data, ghost g: Goal)
      requires Sound(g) && !p.Tmp?
      modifies this
      ensures Sound(g) && Tmp(p) in tree && tree[Tmp(p)] == data && old(trace) <= trace
      ensures AgreeBut(old(tree), tree, Tmp(p)) && Grows(old(tree), tree)
    {
      if * {
        TmpStep(g, tree, tree[Tmp(p) := []], p);
        Step(tree[Tmp(p) := []], g);
      }
      TmpStep(g, tree, tree[Tmp(p) := data], p);
      Step(tree[Tmp(p) := data], g);
    }

    /** write_atomic. */
    method WriteAtomic(p: Path, data: Data, ghost g: Goal)
      requires Sound(g) && May(g, tree, p, data)
      modifies this
      ensures Sound(g) && p in tree && tree[p] == data && old(trace) <= trace
      ensures AgreeBut(old(tree), tree, p) && Grows(old(tree), tree)
    {
      ghost var t0 := tree;
      Stage(p, data, g);
      MayKept(g, t0, tree, p, p, data);
      WriteStep(g, tree, Renamed(tree, p), p, data);
      Step(Renamed(tree, p), g);
    }

    /** os.remove of the file of the other kind, once the tag's own file is the new image. */
    method RemoveOther(tag: Name, other: Kind, ghost g: Goal)
      requires Sound(g) && IsTag(tag) && tag in g.tags && other != g.image.kind && Complete(g.env, tree, g.image)
      requires Ref(g.image.kind, tag) in tree && tree[Ref(g.image.kind, tag)] == g.image.data && InPlace(g, tree)
      modifies this
      ensures Sound(g) && Resolve(tree, tag) == Some(g.image) && old(trace) <= trace
      ensures AgreeBut(old(tree), tree, Ref(other, tag)) && Grows(old(tree), tree)
    {
      var p := Ref(other, tag);
      if p in tree {
        TagStep(g, tree, tree - {p}, other, tag);
        Step(tree - {p}, g);
      }
    }
  }
}
