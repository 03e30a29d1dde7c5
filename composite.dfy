/**
 * The composite repository (ferenda/compositerepository.py): a front for an
 * ordered list of sub-repository classes. It keeps one memoised instance per
 * class, enumerates basefiles across the sub-repositories, downloads from all
 * of them, parses by ordered fallback and copies the winner's artifacts into
 * its own storage.
 *
 * The code of the sub-repositories is not part of this model: each class
 * comes with a `Behaviour` giving what its `parse`, `download`, `store.needed`,
 * `store.list_basefiles_for` and `store.list_attachments` answer, and which
 * files a call writes. The file system is a map from paths to (content, mtime).
 */
module CompositeRepo {
  import opened Wrappers
  import opened PyStr

  // ------------------------------------------------------------------ values

  /** A repository class: qualified name, configuration alias, names of its base classes. */
  datatype RepoClass = RepoClass(name: string, alias: string, bases: seq<string>)

  /** The Python values a sub-repository call can return. */
  datatype PyValue = PNone | PBool(b: bool) | PStr(s: string)

  predicate Truthy(v: PyValue)
  {
    match v
    case PNone => false
    case PBool(b) => b
    case PStr(s) => s != ""
  }

  /** `v is True`. */
  predicate IsTrue(v: PyValue) { v == PBool(true) }

  datatype Owner = Composite | Sub(cls: RepoClass)
  datatype Area = Downloaded | Parsed | Distilled | Entry
  datatype Path = Path(owner: Owner, area: Area, basefile: string, attachment: Option<string>)
  datatype FileData = FileData(content: string, mtime: int)
  type Disk = map<Path, FileData>

  function Lookup(d: Disk, p: Path): Option<FileData>
  {
    if p in d then Some(d[p]) else None
  }

  function FilePath(o: Owner, a: Area, bf: string): Path { Path(o, a, bf, None) }

  /** What a call into a sub-repository did: returned a value or raised, and wrote some files. */
  datatype Outcome = Returned(value: PyValue) | Raised(exc: string)
  datatype Call = Call(outcome: Outcome, writes: Disk)

  /** The observable behaviour of one sub-repository class. */
  datatype Behaviour = Behaviour(
    parse: string -> Call,
    download: Option<string> -> Call,
    needed: string -> bool,                      // store.needed(basefile, "parse")
    listBasefiles: (string, bool) -> seq<string>, // store.list_basefiles_for(action, force)
    storageDir: bool,                            // store.storage_policy == "dir"
    attachments: string -> seq<string>)          // store.list_attachments(basefile, "parsed")

  /** A layered configuration: option values and named subsections. */
  datatype ConfigTree = ConfigTree(options: map<string, PyValue>, sections: map<string, ConfigTree>)

  /** The subsection at `path` below `root`. */
  function Section(root: ConfigTree, path: seq<string>): Option<ConfigTree>
  {
    if path == [] then Some(root)
    else
      match Section(root, path[..|path| - 1])
      case None => None
      case Some(p) => if path[|path| - 1] in p.sections then Some(p.sections[path[|path| - 1]]) else None
  }

  /** `hasattr(config, name)` for a subsection name. */
  predicate HasSection(root: ConfigTree, path: seq<string>, name: string)
  {
    Section(root, path).Some? && name in Section(root, path).value.sections
  }

  lemma SectionChild(root: ConfigTree, path: seq<string>, name: string)
    requires HasSection(root, path, name)
    ensures Section(root, path + [name]).Some?
  {
    assert (path + [name])[..|path|] == path;
  }

  /** An option of the section at `path`; a missing option reads as False (its default). */
  function Setting(root: ConfigTree, path: seq<string>, name: string): PyValue
  {
    match Section(root, path)
    case None => PBool(false)
    case Some(s) => if name in s.options then s.options[name] else PBool(false)
  }

  function Parent(path: seq<string>): seq<string> requires path != [] { path[..|path| - 1] }

  /**
   * The configuration a new sub-repository instance gets (get_instance): the
   * composite's subsection named after the class alias, else the parent's
   * subsection of that name, else the composite's own configuration.
   */
  function InstanceConfigPath(root: ConfigTree, path: seq<string>, alias: string): (r: seq<string>)
    requires Section(root, path).Some?
    ensures Section(root, r).Some?
    ensures HasSection(root, path, alias) ==> r == path + [alias]
    ensures !HasSection(root, path, alias) && path != [] && HasSection(root, Parent(path), alias) ==> r == Parent(path) + [alias]
    ensures !HasSection(root, path, alias) && (path == [] || !HasSection(root, Parent(path), alias)) ==> r == path
  {
    if HasSection(root, path, alias) then
      SectionChild(root, path, alias);
      path + [alias]
    else if path != [] && HasSection(root, Parent(path), alias) then
      SectionChild(root, Parent(path), alias);
      Parent(path) + [alias]
    else path
  }

  // ------------------------------------------------------ sequences and sets

  predicate Distinct<T(==)>(s: seq<T>)
  {
    forall i, j :: 0 <= i < j < |s| ==> s[i] != s[j]
  }

  /** Keep the first occurrence of every element, in order. */
  function Dedup<T(==)>(s: seq<T>): seq<T>
  {
    if s == [] then []
    else
      var p := Dedup(s[..|s| - 1]);
      if s[|s| - 1] in s[..|s| - 1] then p else p + [s[|s| - 1]]
  }

  lemma {:induction false} DedupElements<T>(s: seq<T>)
    ensures Distinct(Dedup(s))
    ensures forall x :: x in Dedup(s) <==> x in s
  {
    if s != [] {
      var init := s[..|s| - 1];
      DedupElements(init);
      assert s == init + [s[|s| - 1]];
    }
  }

  /** Position of the first occurrence of `x` in `s`. */
  function FirstIndex<T(==)>(s: seq<T>, x: T): (k: nat)
    requires x in s
    ensures k < |s| && s[k] == x && x !in s[..k]
  {
    if s[0] == x then 0 else 1 + FirstIndex(s[1..], x)
  }

  lemma {:induction false} FirstIndexAppend<T>(s: seq<T>, y: T, x: T)
    requires x in s
    ensures FirstIndex(s + [y], x) == FirstIndex(s, x)
  {
    if s[0] != x {
      assert (s + [y])[1..] == s[1..] + [y];
      FirstIndexAppend(s[1..], y, x);
    }
  }

  lemma FirstIndexOfNew<T>(s: seq<T>, x: T)
    requires x !in s
    ensures FirstIndex(s + [x], x) == |s|
  {
  }

  /** The de-duplicated sequence lists the elements in the order of their first occurrence. */
  lemma {:induction false} DedupFirstSeenOrder<T>(s: seq<T>)
    ensures forall x :: x in Dedup(s) ==> x in s
    ensures forall i, j :: 0 <= i < j < |Dedup(s)| ==> FirstIndex(s, Dedup(s)[i]) < FirstIndex(s, Dedup(s)[j])
  {
    DedupElements(s);
    if s != [] {
      var init := s[..|s| - 1];
      var last := s[|s| - 1];
      assert s == init + [last];
      DedupFirstSeenOrder(init);
      DedupElements(init);
      var p := Dedup(init);
      forall x | x in p ensures FirstIndex(s, x) == FirstIndex(init, x) {
        FirstIndexAppend(init, last, x);
      }
      if last !in init {
        FirstIndexOfNew(init, last);
        forall x | x in p ensures FirstIndex(s, x) < FirstIndex(s, last) { }
      }
    }
  }

  function InstancesOf<K, V>(cs: seq<K>, items: map<K, V>): (r: seq<V>)
    requires forall c :: c in cs ==> c in items
    ensures |r| == |cs|
  {
    if cs == [] then [] else InstancesOf(cs[..|cs| - 1], items) + [items[cs[|cs| - 1]]]
  }

  lemma {:induction false} InstancesAt<K, V>(cs: seq<K>, items: map<K, V>, i: nat)
    requires forall c :: c in cs ==> c in items
    requires i < |cs|
    ensures InstancesOf(cs, items)[i] == items[cs[i]]
  {
    if i < |cs| - 1 {
      InstancesAt(cs[..|cs| - 1], items, i);
    }
  }

  /** The instances of `cs`, position by position, for a registry keyed by class. */
  lemma LookedUp(cs: seq<RepoClass>, items: map<RepoClass, SubRepo>)
    requires forall c :: c in cs ==> c in items
    requires forall c :: c in items ==> items[c].cls == c
    ensures forall i :: 0 <= i < |cs| ==> InstancesOf(cs, items)[i] == items[cs[i]] && InstancesOf(cs, items)[i].cls == cs[i]
  {
    forall i | 0 <= i < |cs| ensures InstancesOf(cs, items)[i] == items[cs[i]] {
      InstancesAt(cs, items, i);
    }
  }

  function Elems<T(!new)>(s: seq<T>): (r: set<T>)
    ensures forall x :: x in r <==> x in s
  {
    set x | x in s
  }

  /** A defaultdict(set) read: a missing class has no recorded basefiles. */
  function Get(rec: map<RepoClass, set<string>>, c: RepoClass): set<string>
  {
    if c in rec then rec[c] else {}
  }

  // ------------------------------------------------------------- instances

  /** A sub-repository instance: created once per class, never changed afterwards. */
  class SubRepo {
    const cls: RepoClass
    const configPath: seq<string>
    const behaviour: Behaviour

    constructor (cls: RepoClass, configPath: seq<string>, behaviour: Behaviour)
      ensures this.cls == cls && this.configPath == configPath && this.behaviour == behaviour
    {
      this.cls := cls;
      this.configPath := configPath;
      this.behaviour := behaviour;
    }
  }

  /** An OrderedDict from classes to their instances. */
  class Registry {
    var order: seq<RepoClass>
    var items: map<RepoClass, SubRepo>

    ghost predicate Valid()
      reads this
    {
      Distinct(order) && forall c :: c in items <==> c in order
    }

    /** A valid registry whose every instance is of the class it is registered under. */
    ghost predicate Keyed()
      reads this
    {
      Valid() && forall c :: c in items ==> items[c].cls == c
    }

    constructor ()
      ensures Valid() && order == [] && items == map[]
    {
      order := [];
      items := map[];
    }

    /** `d[c] = inst`: a new key goes last, an existing key keeps its place. */
    method Put(c: RepoClass, inst: SubRepo)
      requires Valid()
      modifies this
      ensures Valid()
      ensures items == old(items)[c := inst]
      ensures order == if c in old(items) then old(order) else old(order) + [c]
    {
      if c !in items {
        order := order + [c];
      }
      items := items[c := inst];
    }

    /** `if c not in d: d[c] = inst` */
    method PutIfAbsent(c: RepoClass, inst: SubRepo)
      requires Valid()
      modifies this
      ensures Valid()
      ensures items == if c in old(items) then old(items) else old(items)[c := inst]
      ensures order == if c in old(items) then old(order) else old(order) + [c]
    {
      if c !in items {
        Put(c, inst);
      }
    }
  }

  /** The file system every store reads and writes. */
  class FileSystem {
    var files: Disk

    constructor (files: Disk)
      ensures this.files == files
    {
      this.files := files;
    }
  }

  // ------------------------------------------------------------- the store

  /** (class, basefile) for every basefile a sub-repository store reports, in registry order. */
  function Reports(order: seq<RepoClass>, items: map<RepoClass, SubRepo>, action: string, force: bool): seq<(RepoClass, string)>
    requires forall c :: c in order ==> c in items
  {
    if order == [] then []
    else
      var c := order[|order| - 1];
      Reports(order[..|order| - 1], items, action, force) + Pairs(c, items[c].behaviour.listBasefiles(action, force))
  }

  function Pairs(c: RepoClass, l: seq<string>): (r: seq<(RepoClass, string)>)
    ensures |r| == |l|
  {
    if l == [] then [] else Pairs(c, l[..|l| - 1]) + [(c, l[|l| - 1])]
  }

  lemma ReportsStep(order: seq<RepoClass>, items: map<RepoClass, SubRepo>, action: string, force: bool, i: nat)
    requires i < |order| && forall c :: c in order ==> c in items
    ensures Reports(order[..i + 1], items, action, force) ==
      Reports(order[..i], items, action, force) + Pairs(order[i], items[order[i]].behaviour.listBasefiles(action, force))
  {
    assert order[..i + 1][..i] == order[..i];
  }

  lemma PairsPrefix(c: RepoClass, l: seq<string>, j: nat)
    requires j < |l|
    ensures Pairs(c, l[..j + 1]) == Pairs(c, l[..j]) + [(c, l[j])]
  {
    assert l[..j + 1][..j] == l[..j];
  }

  lemma ListingExtends(before: seq<(RepoClass, string)>, c: RepoClass, l: seq<string>, j: nat)
    requires j < |l|
    ensures before + Pairs(c, l[..j]) + [(c, l[j])] == before + Pairs(c, l[..j + 1])
  {
    PairsPrefix(c, l, j);
    var p := Pairs(c, l[..j]);
    assert before + p + [(c, l[j])] == before + (p + [(c, l[j])]);
  }

  function Names(ps: seq<(RepoClass, string)>): (r: seq<string>)
    ensures |r| == |ps|
  {
    if ps == [] then [] else Names(ps[..|ps| - 1]) + [ps[|ps| - 1].1]
  }

  lemma {:induction false} NamesAt(ps: seq<(RepoClass, string)>, i: nat)
    requires i < |ps|
    ensures Names(ps)[i] == ps[i].1
  {
    if i < |ps| - 1 {
      NamesAt(ps[..|ps| - 1], i);
    }
  }

  /** `basefiles[cls].add(bf)` for every report, in order. */
  function Record(rec: map<RepoClass, set<string>>, ps: seq<(RepoClass, string)>): map<RepoClass, set<string>>
  {
    if ps == [] then rec
    else
      var r := Record(rec, ps[..|ps| - 1]);
      var c := ps[|ps| - 1].0;
      r[c := Get(r, c) + {ps[|ps| - 1].1}]
  }

  /** After recording, a class holds a basefile iff it held it before or reported it. */
  lemma {:induction false} RecordHas(rec: map<RepoClass, set<string>>, ps: seq<(RepoClass, string)>, c: RepoClass, b: string)
    ensures b in Get(Record(rec, ps), c) <==> b in Get(rec, c) || (c, b) in ps
  {
    if ps != [] {
      var init := ps[..|ps| - 1];
      RecordHas(rec, init, c, b);
      assert ps == init + [ps[|ps| - 1]];
    }
  }

  /** One more report: its name is yielded iff new, and it is recorded under its class. */
  lemma ListingStep(rec: map<RepoClass, set<string>>, ps: seq<(RepoClass, string)>, c: RepoClass, b: string)
    ensures Names(ps + [(c, b)]) == Names(ps) + [b]
    ensures Elems(Names(ps + [(c, b)])) == Elems(Names(ps)) + {b}
    ensures Dedup(Names(ps + [(c, b)])) == if b in Names(ps) then Dedup(Names(ps)) else Dedup(Names(ps)) + [b]
    ensures Record(rec, ps + [(c, b)]) == Record(rec, ps)[c := Get(Record(rec, ps), c) + {b}]
  {
    var ps' := ps + [(c, b)];
    assert ps'[..|ps'| - 1] == ps;
    assert Names(ps')[..|ps| ] == Names(ps);
  }

  /** The basefiles the composite yields for a parse-type action: each once, first-seen order. */
  lemma ListingProperties(ps: seq<(RepoClass, string)>)
    ensures Distinct(Dedup(Names(ps)))
    ensures forall b :: b in Dedup(Names(ps)) ==> b in Names(ps)
    ensures forall b :: b in Dedup(Names(ps)) <==> exists i :: 0 <= i < |ps| && ps[i].1 == b
    ensures forall i, j :: 0 <= i < j < |Dedup(Names(ps))| ==>
      FirstIndex(Names(ps), Dedup(Names(ps))[i]) < FirstIndex(Names(ps), Dedup(Names(ps))[j])
  {
    DedupElements(Names(ps));
    DedupFirstSeenOrder(Names(ps));
    forall b | b in Dedup(Names(ps)) ensures exists i :: 0 <= i < |ps| && ps[i].1 == b {
      var i := FirstIndex(Names(ps), b);
      NamesAt(ps, i);
    }
    forall b | (exists i :: 0 <= i < |ps| && ps[i].1 == b) ensures b in Dedup(Names(ps)) {
      var i :| 0 <= i < |ps| && ps[i].1 == b;
      NamesAt(ps, i);
    }
  }

  /** The number of files a store owns for a basefile. */
  function Owned(d: Disk, o: Owner, bf: string): set<Path>
  {
    set p | p in d && p.owner == o && p.basefile == bf
  }

  /** `DocumentStore.remove`: deletes the store's files for the basefile and counts them. */
  function RemoveOwned(d: Disk, o: Owner, bf: string): Disk
  {
    map p | p in d && !(p.owner == o && p.basefile == bf) :: d[p]
  }

  lemma RemoveOwnedCount(d: Disk, o: Owner, bf: string)
    ensures |d.Keys| == |RemoveOwned(d, o, bf).Keys| + |Owned(d, o, bf)|
  {
    var kept := RemoveOwned(d, o, bf).Keys;
    var gone := Owned(d, o, bf);
    assert d.Keys == kept + gone;
    assert kept * gone == {};
  }

  function RemoveAll(d: Disk, owners: seq<Owner>, bf: string): Disk
  {
    if owners == [] then d else RemoveAll(RemoveOwned(d, owners[0], bf), owners[1..], bf)
  }

  function RemovedCount(d: Disk, owners: seq<Owner>, bf: string): nat
  {
    if owners == [] then 0
    else |Owned(d, owners[0], bf)| + RemovedCount(RemoveOwned(d, owners[0], bf), owners[1..], bf)
  }

  /**
   * Removing from every store deletes exactly the files of that basefile the
   * stores own, leaves every other file alone, and reports how many it deleted.
   */
  lemma {:induction false} RemoveAllProperties(d: Disk, owners: seq<Owner>, bf: string, p: Path)
    ensures Lookup(RemoveAll(d, owners, bf), p) == if p.basefile == bf && p.owner in owners then None else Lookup(d, p)
    ensures |d.Keys| == |RemoveAll(d, owners, bf).Keys| + RemovedCount(d, owners, bf)
  {
    if owners != [] {
      RemoveOwnedCount(d, owners[0], bf);
      RemoveAllProperties(RemoveOwned(d, owners[0], bf), owners[1..], bf, p);
    }
  }

  function StoreOwners(order: seq<RepoClass>, items: map<RepoClass, SubRepo>): seq<Owner>
    requires forall c :: c in order ==> c in items
  {
    seq(|order|, i requires 0 <= i < |order| => Sub(items[order[i]].cls))
  }

  /** The composite's store: its registry of sub-repositories and the basefiles each reported. */
  class CompositeStore {
    const datadir: string
    const storageDir: bool
    const docrepoInstances: Registry
    var basefiles: map<RepoClass, set<string>>
    const fs: FileSystem
    /** The basefiles the composite's own directory holds for other actions (DocumentStore, not modelled). */
    const ownListing: (string, bool) -> seq<string>

    /** A registry given and non-empty is shared; otherwise the store gets a new, empty one. */
    constructor (datadir: string, storageDir: bool, docrepoInstances: Registry?, fs: FileSystem,
                 ownListing: (string, bool) -> seq<string>)
      requires docrepoInstances != null ==> docrepoInstances.Valid()
      ensures this.docrepoInstances.Valid()
      ensures docrepoInstances != null && docrepoInstances.items != map[] ==> this.docrepoInstances == docrepoInstances
      ensures docrepoInstances == null || docrepoInstances.items == map[] ==>
        fresh(this.docrepoInstances) && this.docrepoInstances.items == map[]
      ensures this.fs == fs && this.datadir == datadir && this.storageDir == storageDir && this.ownListing == ownListing
      ensures basefiles == map[]
    {
      this.datadir := datadir;
      this.storageDir := storageDir;
      this.fs := fs;
      this.ownListing := ownListing;
      if docrepoInstances == null || docrepoInstances.items == map[] {
        this.docrepoInstances := new Registry();
      } else {
        this.docrepoInstances := docrepoInstances;
      }
      basefiles := map[];
    }

    /**
     * list_basefiles_for. `action in ("parse")` is a substring test, so any
     * substring of "parse" takes the sub-repository path.
     */
    method ListBasefilesFor(action: string, force: bool) returns (yielded: seq<string>)
      requires docrepoInstances.Valid()
      modifies this`basefiles
      ensures var ps := Reports(docrepoInstances.order, docrepoInstances.items, action, force);
        if Contains("parse", action) then yielded == Dedup(Names(ps)) && basefiles == Record(old(basefiles), ps)
        else yielded == ownListing(action, force) && basefiles == old(basefiles)
    {
      if !Contains("parse", action) {
        yielded := ownListing(action, force);
        return;
      }
      var order := docrepoInstances.order;
      var items := docrepoInstances.items;
      var documents: set<string> := {};
      yielded := [];
      ghost var ps: seq<(RepoClass, string)> := [];
      for i := 0 to |order|
        invariant ps == Reports(order[..i], items, action, force)
        invariant yielded == Dedup(Names(ps)) && basefiles == Record(old(basefiles), ps)
        invariant documents == Elems(Names(ps))
      {
        var cls := order[i];
        var listing := items[cls].behaviour.listBasefiles(action, force);
        ghost var before := ps;
        for j := 0 to |listing|
          invariant ps == before + Pairs(cls, listing[..j])
          invariant yielded == Dedup(Names(ps)) && basefiles == Record(old(basefiles), ps)
          invariant documents == Elems(Names(ps))
        {
          var b := listing[j];
          ListingStep(old(basefiles), ps, cls, b);
          ListingExtends(before, cls, listing, j);
          basefiles := basefiles[cls := Get(basefiles, cls) + {b}];
          if b !in documents {
            documents := documents + {b};
            yielded := yielded + [b];
          }
          ps := ps + [(cls, b)];
        }
        assert listing[..|listing|] == listing;
        ReportsStep(order, items, action, force, i);
      }
      assert order[..|order|] == order;
    }

    /** remove: every registered sub-repository's store, then the composite's own. */
    method Remove(bf: string) returns (removed: nat)
      requires docrepoInstances.Valid()
      modifies fs
      ensures var owners := StoreOwners(docrepoInstances.order, docrepoInstances.items) + [Composite];
        fs.files == RemoveAll(old(fs.files), owners, bf) && removed == RemovedCount(old(fs.files), owners, bf)
    {
      var order := docrepoInstances.order;
      var items := docrepoInstances.items;
      ghost var owners := StoreOwners(order, items) + [Composite];
      removed := 0;
      for i := 0 to |order|
        invariant RemoveAll(old(fs.files), owners, bf) == RemoveAll(fs.files, owners[i..], bf)
        invariant RemovedCount(old(fs.files), owners, bf) == removed + RemovedCount(fs.files, owners[i..], bf)
      {
        var o := Sub(items[order[i]].cls);
        assert owners[i] == o && owners[i..][1..] == owners[i + 1..];
        removed := removed + |Owned(fs.files, o, bf)|;
        fs.files := RemoveOwned(fs.files, o, bf);
      }
      assert owners[|order|..] == [Composite];
      removed := removed + |Owned(fs.files, Composite, bf)|;
      fs.files := RemoveOwned(fs.files, Composite, bf);
    }
  }

  // ------------------------------------------------------------ composition

  /** `type(name, bases, dict)` with the extra bases not already among the class's own, then the class. */
  function ComposeClass(c: RepoClass, extrabases: seq<string>): (r: RepoClass)
    ensures r.name == c.name && r.alias == c.alias
    ensures |r.bases| >= 1 && r.bases[|r.bases| - 1] == c.name
    ensures forall x :: x in r.bases[..|r.bases| - 1] <==> x in extrabases && x !in c.bases
  {
    var extra := NewBases(extrabases, c.bases);
    assert (extra + [c.name])[..|extra|] == extra;
    RepoClass(c.name, c.alias, extra + [c.name])
  }

  /** `[x for x in extrabases if x not in bases]`. */
  function NewBases(extrabases: seq<string>, bases: seq<string>): (r: seq<string>)
    ensures forall x :: x in r <==> x in extrabases && x !in bases
  {
    if extrabases == [] then []
    else (if extrabases[0] in bases then [] else [extrabases[0]]) + NewBases(extrabases[1..], bases)
  }

  /** get_default_options: the composite's own defaults, then options only sub-repositories define (first wins), then failfast. */
  method GetDefaultOptions(own: map<string, PyValue>, subDefaults: seq<seq<(string, PyValue)>>) returns (opts: map<string, PyValue>)
    ensures opts.Keys == own.Keys + KeysOf(subDefaults) + {"failfast"}
    ensures opts["failfast"] == PBool(false)
    ensures forall k :: k in own && k != "failfast" ==> opts[k] == own[k]
    ensures forall k :: k !in own && k != "failfast" && k in KeysOf(subDefaults) ==> opts[k] == FirstDefault(subDefaults, k)
  {
    opts := own;
    for i := 0 to |subDefaults|
      invariant opts.Keys == own.Keys + KeysOf(subDefaults[..i])
      invariant forall k :: k in own ==> opts[k] == own[k]
      invariant forall k :: k !in own && k in KeysOf(subDefaults[..i]) ==> opts[k] == FirstDefault(subDefaults[..i], k)
    {
      assert subDefaults[..i + 1] == subDefaults[..i] + [subDefaults[i]];
      FirstDefaultAppend(subDefaults[..i], subDefaults[i]);
      opts := AddDefaults(opts, subDefaults[i]);
    }
    assert subDefaults[..|subDefaults|] == subDefaults;
    opts := opts["failfast" := PBool(false)];
  }

  /** One sub-repository's defaults added to `opts`: a key already there keeps its value, a new key takes its first value. */
  method AddDefaults(opts: map<string, PyValue>, items: seq<(string, PyValue)>) returns (r: map<string, PyValue>)
    ensures r.Keys == opts.Keys + KeysIn(items)
    ensures forall k :: k in opts ==> r[k] == opts[k]
    ensures forall k :: k !in opts && k in KeysIn(items) ==> r[k] == FirstValue(items, k)
  {
    r := opts;
    for j := 0 to |items|
      invariant r.Keys == opts.Keys + KeysIn(items[..j])
      invariant forall k :: k in opts ==> r[k] == opts[k]
      invariant forall k :: k !in opts && k in KeysIn(items[..j]) ==> r[k] == FirstValue(items[..j], k)
    {
      var (k, v) := items[j];
      FirstValueAppend(items[..j], items[j]);
      assert items[..j + 1] == items[..j] + [items[j]];
      if k !in r {
        r := r[k := v];
      }
    }
    assert items[..|items|] == items;
  }

  function KeysIn(items: seq<(string, PyValue)>): set<string>
  {
    set i | 0 <= i < |items| :: items[i].0
  }

  function KeysOf(subs: seq<seq<(string, PyValue)>>): set<string>
  {
    if subs == [] then {} else KeysOf(subs[..|subs| - 1]) + KeysIn(subs[|subs| - 1])
  }

  /** The value of the first item with key `k`. */
  function FirstValue(items: seq<(string, PyValue)>, k: string): PyValue
    requires k in KeysIn(items)
  {
    if items[0].0 == k then items[0].1
    else
      assert k in KeysIn(items[1..]) by {
        var i :| 0 <= i < |items| && items[i].0 == k;
        assert items[1..][i - 1].0 == k;
      }
      FirstValue(items[1..], k)
  }

  lemma {:induction false} FirstValueAppend(items: seq<(string, PyValue)>, kv: (string, PyValue))
    ensures KeysIn(items + [kv]) == KeysIn(items) + {kv.0}
    ensures forall k :: k in KeysIn(items) ==> FirstValue(items + [kv], k) == FirstValue(items, k)
    ensures kv.0 !in KeysIn(items) ==> FirstValue(items + [kv], kv.0) == kv.1
    decreases |items|
  {
    var s := items + [kv];
    assert forall i :: 0 <= i < |items| ==> s[i] == items[i];
    assert s[|items|] == kv;
    if items != [] {
      assert s[1..] == items[1..] + [kv];
      FirstValueAppend(items[1..], kv);
      forall k | k in KeysIn(items) ensures FirstValue(s, k) == FirstValue(items, k) {
        if items[0].0 != k {
          var i :| 0 <= i < |items| && items[i].0 == k;
          assert items[1..][i - 1].0 == k;
        }
      }
    }
  }

  /** The value the first sub-repository that defines `k` gives it. */
  function FirstDefault(subs: seq<seq<(string, PyValue)>>, k: string): PyValue
    requires k in KeysOf(subs)
  {
    var init := subs[..|subs| - 1];
    if k in KeysOf(init) then FirstDefault(init, k) else FirstValue(subs[|subs| - 1], k)
  }

  lemma FirstDefaultAppend(subs: seq<seq<(string, PyValue)>>, items: seq<(string, PyValue)>)
    ensures KeysOf(subs + [items]) == KeysOf(subs) + KeysIn(items)
    ensures forall k :: k in KeysOf(subs) ==> FirstDefault(subs + [items], k) == FirstDefault(subs, k)
    ensures forall k :: k in KeysIn(items) && k !in KeysOf(subs) ==> FirstDefault(subs + [items], k) == FirstValue(items, k)
  {
    assert (subs + [items])[..|subs|] == subs;
  }

  // ------------------------------------------------------------- copy_parsed

  function SubPath(cls: RepoClass, a: Area, bf: string, att: Option<string>): Path { Path(Sub(cls), a, bf, att) }
  function CompPath(a: Area, bf: string, att: Option<string>): Path { Path(Composite, a, bf, att) }

  /** util.outfile_is_newer: the target exists and no existing source is more recent. */
  predicate OutfileIsNewer(d: Disk, src: Path, dst: Path)
  {
    dst in d && (src !in d || d[src].mtime <= d[dst].mtime)
  }

  /** util.link_or_copy: the target takes the source's content and mtime; a missing source leaves no target. */
  function LinkOrCopy(d: Disk, src: Path, dst: Path): Disk
  {
    if src in d then d[dst := d[src]] else d - {dst}
  }

  function CopyAttachments(d: Disk, cls: RepoClass, bf: string, atts: seq<string>): Disk
  {
    if atts == [] then d
    else
      var a := atts[|atts| - 1];
      LinkOrCopy(CopyAttachments(d, cls, bf, atts[..|atts| - 1]), SubPath(cls, Parsed, bf, Some(a)), CompPath(Parsed, bf, Some(a)))
  }

  /** The freshness skip of copy_parsed. */
  predicate CopyUpToDate(force: PyValue, cls: RepoClass, bf: string, d: Disk)
  {
    !Truthy(force)
    && OutfileIsNewer(d, SubPath(cls, Distilled, bf, None), CompPath(Distilled, bf, None))
    && OutfileIsNewer(d, SubPath(cls, Parsed, bf, None), CompPath(Parsed, bf, None))
  }

  function CopyParsedSpec(force: PyValue, inst: SubRepo, bf: string, d: Disk): Disk
  {
    var cls := inst.cls;
    if CopyUpToDate(force, cls, bf, d) then d
    else
      var d1 := LinkOrCopy(d, SubPath(cls, Entry, bf, None), CompPath(Entry, bf, None));
      var d2 := LinkOrCopy(d1, SubPath(cls, Distilled, bf, None), CompPath(Distilled, bf, None));
      var d3 := LinkOrCopy(d2, SubPath(cls, Parsed, bf, None), CompPath(Parsed, bf, None));
      if inst.behaviour.storageDir then CopyAttachments(d3, cls, bf, inst.behaviour.attachments(bf)) else d3
  }

  /** The composite paths copy_parsed writes for a basefile. */
  predicate IsCopyTarget(inst: SubRepo, bf: string, p: Path)
  {
    p.owner == Composite && p.basefile == bf &&
    ((p.attachment == None && p.area != Downloaded) ||
     (inst.behaviour.storageDir && p.area == Parsed && p.attachment.Some? && p.attachment.value in inst.behaviour.attachments(bf)))
  }

  lemma {:induction false} CopyAttachmentsAt(d: Disk, cls: RepoClass, bf: string, atts: seq<string>, p: Path)
    ensures Lookup(CopyAttachments(d, cls, bf, atts), p) ==
      if p.owner == Composite && p.basefile == bf && p.area == Parsed && p.attachment.Some? && p.attachment.value in atts
      then Lookup(d, p.(owner := Sub(cls)))
      else Lookup(d, p)
  {
    if atts != [] {
      var init := atts[..|atts| - 1];
      CopyAttachmentsAt(d, cls, bf, init, p);
      CopyAttachmentsAt(d, cls, bf, init, p.(owner := Sub(cls)));
      assert atts == init + [atts[|atts| - 1]];
    }
  }

  /**
   * What copy_parsed leaves behind: unless skipped as up to date, every
   * target (entry, distilled, parsed and, for "dir" storage, each parsed
   * attachment) mirrors the sub-repository's file; every other path is
   * unchanged.
   */
  lemma CopyParsedAt(force: PyValue, inst: SubRepo, bf: string, d: Disk, p: Path)
    ensures Lookup(CopyParsedSpec(force, inst, bf, d), p) ==
      if !CopyUpToDate(force, inst.cls, bf, d) && IsCopyTarget(inst, bf, p)
      then Lookup(d, p.(owner := Sub(inst.cls)))
      else Lookup(d, p)
  {
    var cls := inst.cls;
    if !CopyUpToDate(force, cls, bf, d) {
      var d1 := LinkOrCopy(d, SubPath(cls, Entry, bf, None), CompPath(Entry, bf, None));
      var d2 := LinkOrCopy(d1, SubPath(cls, Distilled, bf, None), CompPath(Distilled, bf, None));
      var d3 := LinkOrCopy(d2, SubPath(cls, Parsed, bf, None), CompPath(Parsed, bf, None));
      if inst.behaviour.storageDir {
        CopyAttachmentsAt(d3, cls, bf, inst.behaviour.attachments(bf), p);
      }
    }
  }

  lemma DiskExt(a: Disk, b: Disk)
    requires forall p :: Lookup(a, p) == Lookup(b, p)
    ensures a == b
  {
    assert forall p :: p in a <==> Lookup(a, p).Some?;
    assert a.Keys == b.Keys;
  }

  /** copy_parsed is idempotent: a second run changes nothing. */
  lemma CopyParsedIdempotent(force: PyValue, inst: SubRepo, bf: string, d: Disk)
    ensures CopyParsedSpec(force, inst, bf, CopyParsedSpec(force, inst, bf, d)) == CopyParsedSpec(force, inst, bf, d)
  {
    var d1 := CopyParsedSpec(force, inst, bf, d);
    var d2 := CopyParsedSpec(force, inst, bf, d1);
    forall p ensures Lookup(d2, p) == Lookup(d1, p) {
      CopyParsedAt(force, inst, bf, d1, p);
      CopyParsedAt(force, inst, bf, d, p);
      CopyParsedAt(force, inst, bf, d, p.(owner := Sub(inst.cls)));
    }
    DiskExt(d2, d1);
  }

  // ---------------------------------------------------------------- parse

  /** A sub-repository is preferred when it reported the basefile or has downloaded it. */
  predicate Preferred(inst: SubRepo, bf: string, rec: map<RepoClass, set<string>>, d: Disk)
  {
    bf in Get(rec, inst.cls) || SubPath(inst.cls, Downloaded, bf, None) in d
  }

  /** A parse call that ends the fallback loop: a truthy return, or an exception under fail-fast. */
  predicate Stops(inst: SubRepo, bf: string, failfast: bool)
  {
    match inst.behaviour.parse(bf).outcome
    case Raised(_) => failfast
    case Returned(v) => Truthy(v)
  }

  datatype End = Won(winner: SubRepo, value: PyValue) | FailedFast(exc: string) | Exhausted
  datatype Attempt = Attempt(tried: seq<RepoClass>, end: End, disk: Disk)

  function Prefixed(t: seq<RepoClass>, a: Attempt): Attempt { a.(tried := t + a.tried) }

  /** The fallback loop over get_preferred_instances, which is evaluated lazily between parse calls. */
  function TryPreferred(insts: seq<SubRepo>, bf: string, rec: map<RepoClass, set<string>>, failfast: bool, d: Disk): Attempt
    decreases |insts|
  {
    if insts == [] then Attempt([], Exhausted, d)
    else
      var inst := insts[0];
      if !Preferred(inst, bf, rec, d) then TryPreferred(insts[1..], bf, rec, failfast, d)
      else
        var call := inst.behaviour.parse(bf);
        var d' := d + call.writes;
        if Stops(inst, bf, failfast) then
          match call.outcome
          case Raised(e) => Attempt([inst.cls], FailedFast(e), d')
          case Returned(v) => Attempt([inst.cls], Won(inst, v), d')
        else Prefixed([inst.cls], TryPreferred(insts[1..], bf, rec, failfast, d'))
  }

  /**
   * How the fallback loop ends: a winner is the last instance tried and its
   * parse returned a truthy value; a fail-fast end happens only under
   * fail-fast and carries an exception one of the instances raised.
   */
  lemma {:induction false} TryPreferredEnds(insts: seq<SubRepo>, bf: string, rec: map<RepoClass, set<string>>, failfast: bool, d: Disk)
    ensures var a := TryPreferred(insts, bf, rec, failfast, d);
      |a.tried| <= |insts| &&
      (a.end.Won? ==>
        a.tried != [] && a.tried[|a.tried| - 1] == a.end.winner.cls && a.end.winner in insts &&
        a.end.winner.behaviour.parse(bf).outcome == Returned(a.end.value) && Truthy(a.end.value)) &&
      (a.end.FailedFast? ==>
        failfast && a.tried != [] &&
        exists i :: 0 <= i < |insts| && insts[i].behaviour.parse(bf).outcome == Raised(a.end.exc))
    decreases |insts|
  {
    if insts != [] {
      var inst := insts[0];
      var d' := d + inst.behaviour.parse(bf).writes;
      if !Preferred(inst, bf, rec, d) || !Stops(inst, bf, failfast) {
        var dn := if !Preferred(inst, bf, rec, d) then d else d';
        TryPreferredEnds(insts[1..], bf, rec, failfast, dn);
        var a := TryPreferred(insts[1..], bf, rec, failfast, dn);
        if a.end.Won? {
          assert a.end.winner in insts;
        }
        if a.end.FailedFast? {
          var i :| 0 <= i < |insts[1..]| && insts[1..][i].behaviour.parse(bf).outcome == Raised(a.end.exc);
          assert insts[i + 1] == insts[1..][i];
        }
      }
    }
  }

  /** One step of the fallback loop, at position `i`. */
  lemma TryStep(insts: seq<SubRepo>, i: nat, bf: string, rec: map<RepoClass, set<string>>, failfast: bool, d: Disk)
    requires i < |insts|
    ensures var inst := insts[i];
      var d' := d + inst.behaviour.parse(bf).writes;
      TryPreferred(insts[i..], bf, rec, failfast, d) ==
        if !Preferred(inst, bf, rec, d) then TryPreferred(insts[i + 1..], bf, rec, failfast, d)
        else if !Stops(inst, bf, failfast) then Prefixed([inst.cls], TryPreferred(insts[i + 1..], bf, rec, failfast, d'))
        else match inst.behaviour.parse(bf).outcome
          case Raised(e) => Attempt([inst.cls], FailedFast(e), d')
          case Returned(v) => Attempt([inst.cls], Won(inst, v), d')
  {
    assert insts[i..][0] == insts[i] && insts[i..][1..] == insts[i + 1..];
  }

  /** The fallback loop's state after position `i`, as a prefix of tried classes and the rest of the run. */
  lemma FallbackStep(whole: Attempt, t0: seq<RepoClass>, insts: seq<SubRepo>, i: nat, bf: string,
                     rec: map<RepoClass, set<string>>, failfast: bool, d0: Disk)
    requires i < |insts|
    requires whole == Prefixed(t0, TryPreferred(insts[i..], bf, rec, failfast, d0))
    ensures var inst := insts[i];
      var d1 := d0 + inst.behaviour.parse(bf).writes;
      var t1 := t0 + [inst.cls];
      if !Preferred(inst, bf, rec, d0) then whole == Prefixed(t0, TryPreferred(insts[i + 1..], bf, rec, failfast, d0))
      else if !Stops(inst, bf, failfast) then whole == Prefixed(t1, TryPreferred(insts[i + 1..], bf, rec, failfast, d1))
      else match inst.behaviour.parse(bf).outcome
        case Raised(e) => whole == Attempt(t1, FailedFast(e), d1)
        case Returned(v) => whole == Attempt(t1, Won(inst, v), d1)
  {
    var inst := insts[i];
    var d1 := d0 + inst.behaviour.parse(bf).writes;
    TryStep(insts, i, bf, rec, failfast, d0);
    PrefixedStep(t0, inst.cls, TryPreferred(insts[i + 1..], bf, rec, failfast, d1));
  }

  function PreferredOf(insts: seq<SubRepo>, bf: string, rec: map<RepoClass, set<string>>, d: Disk): seq<SubRepo>
  {
    if insts == [] then []
    else (if Preferred(insts[0], bf, rec, d) then [insts[0]] else []) + PreferredOf(insts[1..], bf, rec, d)
  }

  /** The classes of `insts` up to and including the first one whose parse stops the loop. */
  function UpToFirstStop(insts: seq<SubRepo>, bf: string, failfast: bool): seq<RepoClass>
  {
    if insts == [] then []
    else if Stops(insts[0], bf, failfast) then [insts[0].cls]
    else [insts[0].cls] + UpToFirstStop(insts[1..], bf, failfast)
  }

  /** No sub-repository's parse writes a downloaded file, so which ones are preferred cannot change mid-loop. */
  predicate ParseKeepsDownloads(insts: seq<SubRepo>, bf: string)
  {
    forall i, p :: 0 <= i < |insts| && p in insts[i].behaviour.parse(bf).writes ==> p.area != Downloaded
  }

  /**
   * parse tries exactly the preferred sub-repositories, in order, up to and
   * including the first whose parse returns a truthy value (or raises under
   * fail-fast), and no others.
   */
  lemma {:induction false} TriesExactlyPreferred(insts: seq<SubRepo>, bf: string, rec: map<RepoClass, set<string>>, failfast: bool, d: Disk)
    requires ParseKeepsDownloads(insts, bf)
    ensures TryPreferred(insts, bf, rec, failfast, d).tried == UpToFirstStop(PreferredOf(insts, bf, rec, d), bf, failfast)
    decreases |insts|
  {
    if insts != [] {
      var inst := insts[0];
      assert ParseKeepsDownloads(insts[1..], bf) by {
        forall i, p | 0 <= i < |insts[1..]| && p in insts[1..][i].behaviour.parse(bf).writes ensures p.area != Downloaded {
          assert insts[1..][i] == insts[i + 1];
        }
      }
      if !Preferred(inst, bf, rec, d) {
        assert PreferredOf(insts, bf, rec, d) == PreferredOf(insts[1..], bf, rec, d);
        TriesExactlyPreferred(insts[1..], bf, rec, failfast, d);
      } else if !Stops(inst, bf, failfast) {
        var d' := d + inst.behaviour.parse(bf).writes;
        TriesExactlyPreferred(insts[1..], bf, rec, failfast, d');
        PreferredUnchanged(insts[1..], bf, rec, d, inst.behaviour.parse(bf).writes);
      }
    }
  }

  lemma {:induction false} PreferredUnchanged(insts: seq<SubRepo>, bf: string, rec: map<RepoClass, set<string>>, d: Disk, w: Disk)
    requires forall p :: p in w ==> p.area != Downloaded
    ensures PreferredOf(insts, bf, rec, d + w) == PreferredOf(insts, bf, rec, d)
  {
    if insts != [] {
      var p := SubPath(insts[0].cls, Downloaded, bf, None);
      assert p in d + w <==> p in d;
      PreferredUnchanged(insts[1..], bf, rec, d, w);
    }
  }

  /** What get_instance(x).qualified_class_name() gives for the sub-repositories that recorded the basefile. */
  function Labels(subrepos: seq<RepoClass>, rec: map<RepoClass, set<string>>, bf: string): (r: seq<string>)
    ensures forall l :: l in r <==> exists c :: c in subrepos && bf in Get(rec, c) && c.name == l
  {
    if subrepos == [] then []
    else (if bf in Get(rec, subrepos[0]) then [subrepos[0].name] else []) + Labels(subrepos[1..], rec, bf)
  }

  datatype Settings = Settings(force: PyValue, parseforce: PyValue, failfast: PyValue)

  /** How parse ends: the decorator-visible return value or exception. */
  datatype ParseOutcome =
    | Skipped                            // returned True without parsing
    | Done(value: PyValue)               // returned the winning sub-repository's value
    | Renamed(oldBasefile: string, newBasefile: string)  // DocumentRenamedError(True, msg, old, new)
    | Reraised(exc: string)              // fail-fast re-raise
    | NoInstanceAble(labels: seq<string>) // ParseError "No instance of ... was able to parse ..."
    | NoneAvailable(count: nat)          // ParseError "No available instance (out of N) had basefile ..."

  datatype ParseRun = ParseRun(outcome: ParseOutcome, tried: seq<RepoClass>, disk: Disk)

  predicate Forced(cfg: Settings) { IsTrue(cfg.force) || IsTrue(cfg.parseforce) }

  /** Some sub-repository says parsing is not needed. */
  predicate SomeNotNeeded(insts: seq<SubRepo>, bf: string)
  {
    exists i :: 0 <= i < |insts| && !insts[i].behaviour.needed(bf)
  }

  predicate ShortCircuits(insts: seq<SubRepo>, bf: string, cfg: Settings, d: Disk)
  {
    !Forced(cfg) && SomeNotNeeded(insts, bf) && CompPath(Parsed, bf, None) in d
  }

  function ParseSpec(subrepos: seq<RepoClass>, insts: seq<SubRepo>, bf: string, rec: map<RepoClass, set<string>>,
                     cfg: Settings, d: Disk, now: int): ParseRun
  {
    if ShortCircuits(insts, bf, cfg, d) then ParseRun(Skipped, [], d)
    else Conclude(subrepos, bf, rec, cfg, TryPreferred(insts, bf, rec, Truthy(cfg.failfast), d), now)
  }

  /** What parse makes of the fallback's attempt `a`: the re-raise, the error, or the winner's rename and copy. */
  function Conclude(subrepos: seq<RepoClass>, bf: string, rec: map<RepoClass, set<string>>, cfg: Settings,
                    a: Attempt, now: int): ParseRun
  {
    match a.end
    case FailedFast(e) => ParseRun(Reraised(e), a.tried, a.disk)
    case Exhausted =>
      var labels := Labels(subrepos, rec, bf);
      ParseRun(if labels != [] then NoInstanceAble(labels) else NoneAvailable(|subrepos|), a.tried, a.disk)
    case Won(inst, v) =>
      // the winning value is truthy, so one that is neither True nor the basefile is a string
      if v.PStr? && v.s != bf then
        var placeholder := a.disk[CompPath(Parsed, bf, None) := FileData("", now)];
        ParseRun(Renamed(bf, v.s), a.tried, CopyParsedSpec(cfg.force, inst, v.s, placeholder))
      else ParseRun(Done(v), a.tried, CopyParsedSpec(cfg.force, inst, bf, a.disk))
  }

  /** The short-circuit skip happens iff not forced, some sub-repository does not need to parse and the composite has a parsed file; it calls no parse and writes nothing. */
  lemma SkipOnlyWhenUpToDate(subrepos: seq<RepoClass>, insts: seq<SubRepo>, bf: string, rec: map<RepoClass, set<string>>, cfg: Settings, d: Disk, now: int)
    ensures var run := ParseSpec(subrepos, insts, bf, rec, cfg, d, now);
      (run.outcome == Skipped <==> ShortCircuits(insts, bf, cfg, d)) &&
      (run.outcome == Skipped ==> run.tried == [] && run.disk == d)
  {
  }

  /**
   * A winning return that is neither True nor the requested basefile is a
   * rename: DocumentRenamedError carries (requested, returned), an empty
   * placeholder is left at the old parsed path, and the artifacts are copied
   * under the new name. Any other truthy return is passed back with no placeholder.
   */
  lemma RenameHandling(subrepos: seq<RepoClass>, insts: seq<SubRepo>, bf: string, rec: map<RepoClass, set<string>>, cfg: Settings, d: Disk, now: int)
    requires !ShortCircuits(insts, bf, cfg, d)
    requires TryPreferred(insts, bf, rec, Truthy(cfg.failfast), d).end.Won?
    ensures var a := TryPreferred(insts, bf, rec, Truthy(cfg.failfast), d);
      var run := ParseSpec(subrepos, insts, bf, rec, cfg, d, now);
      var v := a.end.value;
      if v.PStr? && v.s != bf then
        run.outcome == Renamed(bf, v.s) &&
        Lookup(run.disk, CompPath(Parsed, bf, None)) == Some(FileData("", now)) &&
        (!CopyUpToDate(cfg.force, a.end.winner.cls, v.s, a.disk[CompPath(Parsed, bf, None) := FileData("", now)]) ==>
          Lookup(run.disk, CompPath(Parsed, v.s, None)) == Lookup(a.disk, SubPath(a.end.winner.cls, Parsed, v.s, None)))
      else
        run.outcome == Done(v) && run.disk == CopyParsedSpec(cfg.force, a.end.winner, bf, a.disk)
  {
    var a := TryPreferred(insts, bf, rec, Truthy(cfg.failfast), d);
    var v := a.end.value;
    if v.PStr? && v.s != bf {
      var placeholder := a.disk[CompPath(Parsed, bf, None) := FileData("", now)];
      CopyParsedAt(cfg.force, a.end.winner, v.s, placeholder, CompPath(Parsed, bf, None));
      CopyParsedAt(cfg.force, a.end.winner, v.s, placeholder, CompPath(Parsed, v.s, None));
    }
  }

  /**
   * When no sub-repository succeeds, the ParseError names those that had the
   * basefile recorded; with none, it gives the number of sub-repositories.
   */
  lemma ParseErrorNames(subrepos: seq<RepoClass>, insts: seq<SubRepo>, bf: string, rec: map<RepoClass, set<string>>, cfg: Settings, d: Disk, now: int)
    requires !ShortCircuits(insts, bf, cfg, d)
    requires TryPreferred(insts, bf, rec, Truthy(cfg.failfast), d).end.Exhausted?
    ensures var run := ParseSpec(subrepos, insts, bf, rec, cfg, d, now);
      match run.outcome
      case NoInstanceAble(labels) => labels != [] && forall l :: l in labels <==> exists c :: c in subrepos && bf in Get(rec, c) && c.name == l
      case NoneAvailable(n) => n == |subrepos| && forall c :: c in subrepos ==> bf !in Get(rec, c)
      case _ => false
  {
    var labels := Labels(subrepos, rec, bf);
    if labels == [] {
      forall c | c in subrepos ensures bf !in Get(rec, c) {
        assert c.name !in labels;
      }
    }
  }

  /** Under fail-fast, the first preferred sub-repository that raises ends parse with that exception, unless an earlier one succeeded. */
  lemma {:induction false} FailFastReraises(insts: seq<SubRepo>, bf: string, rec: map<RepoClass, set<string>>, d: Disk, k: nat, e: string)
    requires ParseKeepsDownloads(insts, bf)
    requires k < |PreferredOf(insts, bf, rec, d)|
    requires PreferredOf(insts, bf, rec, d)[k].behaviour.parse(bf).outcome == Raised(e)
    requires forall j :: 0 <= j < k ==> !Stops(PreferredOf(insts, bf, rec, d)[j], bf, true)
    ensures TryPreferred(insts, bf, rec, true, d).end == FailedFast(e)
    decreases |insts|
  {
    var inst := insts[0];
    assert ParseKeepsDownloads(insts[1..], bf) by {
      forall i, p | 0 <= i < |insts[1..]| && p in insts[1..][i].behaviour.parse(bf).writes ensures p.area != Downloaded {
        assert insts[1..][i] == insts[i + 1];
      }
    }
    var prefs := PreferredOf(insts, bf, rec, d);
    if !Preferred(inst, bf, rec, d) {
      assert prefs == PreferredOf(insts[1..], bf, rec, d);
      FailFastReraises(insts[1..], bf, rec, d, k, e);
    } else if k > 0 {
      assert !Stops(prefs[0], bf, true);
      var d' := d + inst.behaviour.parse(bf).writes;
      PreferredUnchanged(insts[1..], bf, rec, d, inst.behaviour.parse(bf).writes);
      assert prefs[1..] == PreferredOf(insts[1..], bf, rec, d');
      forall j | 0 <= j < k - 1 ensures !Stops(PreferredOf(insts[1..], bf, rec, d')[j], bf, true) {
        assert prefs[j + 1] == prefs[1..][j];
      }
      FailFastReraises(insts[1..], bf, rec, d', k - 1, e);
    }
  }

  // ---------------------------------------------------------------- download

  /** `if basefile and ret`: a basefile was requested and this sub-repository got it. */
  predicate GotRequested(inst: SubRepo, bf: Option<string>)
  {
    bf.Some? && bf.value != "" &&
    match inst.behaviour.download(bf).outcome
    case Raised(_) => false   // any exception counts as ret = False
    case Returned(v) => Truthy(v)
  }

  datatype DownloadRun = DownloadRun(tried: seq<RepoClass>, disk: Disk)

  function DownloadSpec(insts: seq<SubRepo>, bf: Option<string>, d: Disk): DownloadRun
  {
    if insts == [] then DownloadRun([], d)
    else
      var d' := d + insts[0].behaviour.download(bf).writes;
      if GotRequested(insts[0], bf) then DownloadRun([insts[0].cls], d')
      else
        var rest := DownloadSpec(insts[1..], bf, d');
        DownloadRun([insts[0].cls] + rest.tried, rest.disk)
  }

  function Continued(t: seq<RepoClass>, r: DownloadRun): DownloadRun { r.(tried := t + r.tried) }

  /** One step of download's loop, at position `i`. */
  lemma DownloadStep(whole: DownloadRun, t0: seq<RepoClass>, insts: seq<SubRepo>, i: nat, bf: Option<string>, d0: Disk)
    requires i < |insts|
    requires whole == Continued(t0, DownloadSpec(insts[i..], bf, d0))
    ensures var d1 := d0 + insts[i].behaviour.download(bf).writes;
      var t1 := t0 + [insts[i].cls];
      if GotRequested(insts[i], bf) then whole == DownloadRun(t1, d1)
      else whole == Continued(t1, DownloadSpec(insts[i + 1..], bf, d1))
  {
    assert insts[i..][0] == insts[i] && insts[i..][1..] == insts[i + 1..];
    var d1 := d0 + insts[i].behaviour.download(bf).writes;
    var rest := DownloadSpec(insts[i + 1..], bf, d1);
    assert t0 + ([insts[i].cls] + rest.tried) == (t0 + [insts[i].cls]) + rest.tried;
  }

  /**
   * The registry after `if c not in registry: registry[c] = items[c]` for each class tried:
   * earlier registrations are kept, each class tried is added once.
   */
  function Registered(before: map<RepoClass, SubRepo>, items: map<RepoClass, SubRepo>, tried: seq<RepoClass>): map<RepoClass, SubRepo>
  {
    if tried == [] then before
    else
      var m := Registered(before, items, tried[..|tried| - 1]);
      var c := tried[|tried| - 1];
      if c in m || c !in items then m else m[c := items[c]]
  }

  lemma RegisteredStep(before: map<RepoClass, SubRepo>, items: map<RepoClass, SubRepo>, tried: seq<RepoClass>, c: RepoClass)
    ensures var m := Registered(before, items, tried);
      Registered(before, items, tried + [c]) == if c in m || c !in items then m else m[c := items[c]]
  {
    assert (tried + [c])[..|tried|] == tried;
  }

  /** What the registry holds once download has run: the earlier entries, and the tried classes' instances. */
  lemma {:induction false} RegisteredProperties(before: map<RepoClass, SubRepo>, items: map<RepoClass, SubRepo>, tried: seq<RepoClass>)
    requires forall c :: c in tried ==> c in items
    ensures forall c :: c in Registered(before, items, tried) <==> c in before || c in tried
    ensures forall c :: c in before ==> Registered(before, items, tried)[c] == before[c]
    ensures forall c :: c in tried && c !in before ==> Registered(before, items, tried)[c] == items[c]
  {
    if tried != [] {
      var init := tried[..|tried| - 1];
      assert forall c :: c in init ==> c in tried;
      RegisteredProperties(before, items, init);
      assert forall c :: c in tried <==> c in init || c == tried[|tried| - 1];
    }
  }

  function ClassesOf(insts: seq<SubRepo>): (r: seq<RepoClass>)
    ensures |r| == |insts| && forall i :: 0 <= i < |insts| ==> r[i] == insts[i].cls
  {
    seq(|insts|, i requires 0 <= i < |insts| => insts[i].cls)
  }

  /**
   * download calls the sub-repositories in order, surviving their failures,
   * and stops early only right after one got a requested basefile.
   */
  lemma {:induction false} DownloadOrder(insts: seq<SubRepo>, bf: Option<string>, d: Disk)
    ensures var t := DownloadSpec(insts, bf, d).tried;
      |t| <= |insts| && t == ClassesOf(insts[..|t|]) &&
      (forall j :: 0 <= j < |t| - 1 ==> !GotRequested(insts[j], bf)) &&
      (|t| < |insts| ==> GotRequested(insts[|t| - 1], bf))
    decreases |insts|
  {
    if insts != [] {
      var d' := d + insts[0].behaviour.download(bf).writes;
      if !GotRequested(insts[0], bf) {
        DownloadOrder(insts[1..], bf, d');
        var rest := DownloadSpec(insts[1..], bf, d').tried;
        assert insts[..|rest| + 1] == [insts[0]] + insts[1..][..|rest|];
        forall j | 0 <= j < |rest| ensures !GotRequested(insts[j], bf) {
          if j > 0 { assert insts[j] == insts[1..][j - 1]; }
        }
      }
    }
  }

  /** Without a requested basefile every sub-repository is asked to download. */
  lemma DownloadAllWithoutBasefile(insts: seq<SubRepo>, d: Disk)
    ensures DownloadSpec(insts, None, d).tried == ClassesOf(insts)
  {
    DownloadOrder(insts, None, d);
    assert insts[..|insts|] == insts;
  }

  // ---------------------------------------------------------- the repository

  datatype Invocation = ParseCall(cls: RepoClass, basefile: string) | DownloadCall(cls: RepoClass, requested: Option<string>)

  function ParseLog(tried: seq<RepoClass>, bf: string): (r: seq<Invocation>)
    ensures |r| == |tried|
  {
    if tried == [] then [] else ParseLog(tried[..|tried| - 1], bf) + [ParseCall(tried[|tried| - 1], bf)]
  }

  function DownloadLog(tried: seq<RepoClass>, bf: Option<string>): (r: seq<Invocation>)
    ensures |r| == |tried|
  {
    if tried == [] then [] else DownloadLog(tried[..|tried| - 1], bf) + [DownloadCall(tried[|tried| - 1], bf)]
  }

  lemma LogStep(pre: seq<Invocation>, tried: seq<RepoClass>, c: RepoClass, bf: string, req: Option<string>)
    ensures pre + ParseLog(tried + [c], bf) == pre + ParseLog(tried, bf) + [ParseCall(c, bf)]
    ensures pre + DownloadLog(tried + [c], req) == pre + DownloadLog(tried, req) + [DownloadCall(c, req)]
  {
    assert (tried + [c])[..|tried|] == tried;
    var p := ParseLog(tried, bf);
    var q := DownloadLog(tried, req);
    assert pre + (p + [ParseCall(c, bf)]) == pre + p + [ParseCall(c, bf)];
    assert pre + (q + [DownloadCall(c, req)]) == pre + q + [DownloadCall(c, req)];
  }

  lemma PrefixedStep(tried: seq<RepoClass>, c: RepoClass, a: Attempt)
    ensures Prefixed(tried, Prefixed([c], a)) == Prefixed(tried + [c], a)
  {
    assert tried + ([c] + a.tried) == (tried + [c]) + a.tried;
  }

  lemma DedupMember<T>(s: seq<T>, x: T)
    ensures x in Dedup(s) <==> x in s
  {
    DedupElements(s);
  }

  lemma DedupSnoc<T>(s: seq<T>, x: T)
    ensures Dedup(s + [x]) == if x in s then Dedup(s) else Dedup(s) + [x]
  {
    assert (s + [x])[..|s|] == s;
  }

  /** The sub-repository classes composed with the extra bases. */
  function ComposeAll(cs: seq<RepoClass>, extrabases: seq<string>): (r: seq<RepoClass>)
    ensures |r| == |cs|
  {
    if cs == [] then [] else ComposeAll(cs[..|cs| - 1], extrabases) + [ComposeClass(cs[|cs| - 1], extrabases)]
  }

  /** The classes the composite registers: the composed ones when there are extra bases. */
  function Classes(cs: seq<RepoClass>, extrabases: seq<string>): seq<RepoClass>
  {
    if extrabases != [] then ComposeAll(cs, extrabases) else cs
  }

  lemma ClassesStep(cs: seq<RepoClass>, extrabases: seq<string>, i: nat)
    requires i < |cs|
    ensures Classes(cs[..i + 1], extrabases) ==
      Classes(cs[..i], extrabases) + [if extrabases != [] then ComposeClass(cs[i], extrabases) else cs[i]]
  {
    assert cs[..i + 1][..i] == cs[..i];
  }

  lemma {:induction false} ComposeAllAt(cs: seq<RepoClass>, extrabases: seq<string>, i: nat)
    requires i < |cs|
    ensures ComposeAll(cs, extrabases)[i] == ComposeClass(cs[i], extrabases)
  {
    if i < |cs| - 1 {
      ComposeAllAt(cs[..|cs| - 1], extrabases, i);
    }
  }

  /**
   * The loop of download: each class of `order` in turn gets its instance from `items`, is
   * registered in the store's registry if it is not there yet, and downloads; a requested
   * basefile that is got ends the loop.
   */
  method DownloadEach(order: seq<RepoClass>, items: map<RepoClass, SubRepo>, ghost insts: seq<SubRepo>,
                      registry: Registry, bf: Option<string>, d0: Disk)
    returns (tried: seq<RepoClass>, disk: Disk)
    requires registry.Valid()
    requires forall c :: c in order ==> c in items
    requires |insts| == |order| && forall i :: 0 <= i < |order| ==> insts[i] == items[order[i]] && insts[i].cls == order[i]
    modifies registry
    ensures registry.Valid()
    ensures DownloadRun(tried, disk) == DownloadSpec(insts, bf, d0)
    ensures registry.items == Registered(old(registry.items), items, tried)
    ensures (forall c :: c in order ==> c in old(registry.items)) ==>
      registry.items == old(registry.items) && registry.order == old(registry.order)
  {
    ghost var whole := DownloadSpec(insts, bf, d0);
    assert whole == Continued([], whole);
    ghost var registered := registry.items;
    ghost var order0 := registry.order;
    tried, disk := [], d0;
    var got := false;
    var i := 0;
    while i < |order| && !got
      invariant 0 <= i <= |order|
      invariant !got ==> whole == Continued(tried, DownloadSpec(insts[i..], bf, disk))
      invariant got ==> whole == DownloadRun(tried, disk)
      invariant registry.Valid() && registry.items == Registered(registered, items, tried)
      invariant forall c :: c in registered ==> c in registry.items
      invariant (forall c :: c in order ==> c in registered) ==> registry.items == registered && registry.order == order0
    {
      var c := order[i];
      var inst := items[c];  // get_instance(c): registered at construction
      assert inst == insts[i];
      DownloadStep(whole, tried, insts, i, bf, disk);
      ghost var next := DownloadSpec(insts[i + 1..], bf, disk + inst.behaviour.download(bf).writes);
      RegisteredStep(registered, items, tried, c);
      registry.PutIfAbsent(c, inst);
      var call := inst.behaviour.download(bf);
      disk := disk + call.writes;
      tried := tried + [c];
      var ret := match call.outcome case Raised(_) => PBool(false) case Returned(v) => v;
      got := bf.Some? && bf.value != "" && Truthy(ret);  // the requested basefile is got: return
      assert got == GotRequested(inst, bf);
      assert !got ==> whole == Continued(tried, next);
      i := i + 1;
    }
    if !got {
      assert insts[i..] == [] && tried + [] == tried;
    }
  }

  /**
   * get_instance: the class's instance, created on first use with its
   * configuration taken from the subsection InstanceConfigPath picks.
   */
  method Instantiate(registry: Registry, c: RepoClass, root: ConfigTree, configPath: seq<string>,
                     world: RepoClass -> Behaviour) returns (inst: SubRepo)
    requires registry.Keyed() && Section(root, configPath).Some?
    modifies registry
    ensures registry.Keyed()
    ensures c in registry.items && inst == registry.items[c]
    ensures c in old(registry.items) ==>
      inst == old(registry.items[c]) &&
      registry.items == old(registry.items) && registry.order == old(registry.order)
    ensures c !in old(registry.items) ==>
      fresh(inst) && inst.cls == c && inst.behaviour == world(c) &&
      inst.configPath == InstanceConfigPath(root, configPath, c.alias) &&
      registry.items == old(registry.items)[c := inst] && registry.order == old(registry.order) + [c]
    ensures Made(old(registry.items), root, configPath, world) ==> Made(registry.items, root, configPath, world)
    ensures forall k :: k in registry.items ==> k in old(registry.items) || fresh(registry.items[k])
  {
    if c !in registry.items {
      var path := InstanceConfigPath(root, configPath, c.alias);
      var created := new SubRepo(c, path, world(c));
      ghost var before := registry.items;
      registry.Put(c, created);
      if Made(before, root, configPath, world) {
        MadeStep(before, c, created, root, configPath, world);
      }
    }
    inst := registry.items[c];
  }

  /**
   * The loop of the constructor: each sub-repository class, composed with the
   * extra bases when there are any, gets its instance. The composed classes
   * are returned in order (none when there are no extra bases).
   */
  /** Every instance in `items` has its class's behaviour and the configuration get_instance picks for it. */
  ghost predicate Made(items: map<RepoClass, SubRepo>, root: ConfigTree, configPath: seq<string>, world: RepoClass -> Behaviour)
    requires Section(root, configPath).Some?
  {
    forall c :: c in items ==>
      items[c].behaviour == world(c) && items[c].configPath == InstanceConfigPath(root, configPath, c.alias)
  }

  lemma MadeStep(items: map<RepoClass, SubRepo>, c: RepoClass, inst: SubRepo, root: ConfigTree, configPath: seq<string>,
                 world: RepoClass -> Behaviour)
    requires Section(root, configPath).Some? && Made(items, root, configPath, world)
    requires inst.behaviour == world(c) && inst.configPath == InstanceConfigPath(root, configPath, c.alias)
    ensures Made(items[c := inst], root, configPath, world)
  {
  }

  /** One round of the constructor's loop: the i-th class, composed if need be, gets its instance. */
  method InstantiateNext(subrepos: seq<RepoClass>, extrabases: seq<string>, registry: Registry,
                         root: ConfigTree, configPath: seq<string>, world: RepoClass -> Behaviour,
                         i: nat, composed: seq<RepoClass>, ghost seen: seq<RepoClass>)
    returns (composed': seq<RepoClass>, ghost seen': seq<RepoClass>)
    requires i < |subrepos| && Section(root, configPath).Some?
    requires seen == Classes(subrepos[..i], extrabases)
    requires composed == if extrabases != [] then seen else []
    requires registry.Keyed() && registry.order == Dedup(seen)
    requires Made(registry.items, root, configPath, world)
    modifies registry
    ensures seen' == Classes(subrepos[..i + 1], extrabases)
    ensures composed' == if extrabases != [] then seen' else []
    ensures registry.Keyed() && registry.order == Dedup(seen')
    ensures Made(registry.items, root, configPath, world)
    ensures forall c :: c in registry.items ==> c in old(registry.items) || fresh(registry.items[c])
  {
    ClassesStep(subrepos, extrabases, i);
    var c := subrepos[i];
    composed' := composed;
    if extrabases != [] {
      c := ComposeClass(c, extrabases);
      composed' := composed + [c];
    }
    DedupSnoc(seen, c);
    DedupMember(seen, c);
    var _ := Instantiate(registry, c, root, configPath, world);
    seen' := seen + [c];
  }

  method InstantiateAll(subrepos: seq<RepoClass>, extrabases: seq<string>, registry: Registry,
                        root: ConfigTree, configPath: seq<string>, world: RepoClass -> Behaviour)
    returns (composed: seq<RepoClass>)
    requires registry.Keyed() && registry.order == [] && registry.items == map[] && Section(root, configPath).Some?
    modifies registry
    ensures registry.Keyed()
    ensures composed == if extrabases != [] then ComposeAll(subrepos, extrabases) else []
    ensures registry.order == Dedup(Classes(subrepos, extrabases))
    ensures forall c :: c in registry.items <==> c in Classes(subrepos, extrabases)
    ensures Made(registry.items, root, configPath, world)
  {
    composed := [];
    ghost var seen: seq<RepoClass> := [];
    for i := 0 to |subrepos|
      invariant seen == Classes(subrepos[..i], extrabases)
      invariant composed == if extrabases != [] then seen else []
      invariant registry.Keyed() && registry.order == Dedup(seen)
      invariant Made(registry.items, root, configPath, world)
    {
      composed, seen := InstantiateNext(subrepos, extrabases, registry, root, configPath, world, i, composed, seen);
    }
    DedupElements(seen);
    assert subrepos[..|subrepos|] == subrepos;
  }

  /**
   * The fallback loop of parse: the classes of `order` in turn, their instances
   * taken from `items`; one with the basefile (in its store's record or
   * downloaded) parses; an exception ends the loop under failfast, a truthy
   * return ends it with a winner.
   */
  method TryEach(order: seq<RepoClass>, items: map<RepoClass, SubRepo>, ghost insts: seq<SubRepo>, bf: string,
                 rec: map<RepoClass, set<string>>, failfast: bool, d0: Disk)
    returns (end: End, tried: seq<RepoClass>, disk: Disk)
    requires forall c :: c in order ==> c in items
    requires |insts| == |order| && forall i :: 0 <= i < |order| ==> insts[i] == items[order[i]] && insts[i].cls == order[i]
    ensures Attempt(tried, end, disk) == TryPreferred(insts, bf, rec, failfast, d0)
    ensures end.Won? ==> Truthy(end.value)
  {
    ghost var whole := TryPreferred(insts, bf, rec, failfast, d0);
    assert whole == Prefixed([], whole);
    end, tried, disk := Exhausted, [], d0;
    var i := 0;
    while i < |order| && end.Exhausted?
      invariant 0 <= i <= |order|
      invariant end.Exhausted? ==> whole == Prefixed(tried, TryPreferred(insts[i..], bf, rec, failfast, disk))
      invariant !end.Exhausted? ==> whole == Attempt(tried, end, disk)
      invariant end.Won? ==> Truthy(end.value)
    {
      var c := order[i];
      var inst := items[c];  // get_instance(c): registered at construction
      FallbackStep(whole, tried, insts, i, bf, rec, failfast, disk);
      if bf in Get(rec, c) || SubPath(c, Downloaded, bf, None) in disk {
        var call := inst.behaviour.parse(bf);
        disk := disk + call.writes;
        tried := tried + [c];
        match call.outcome {
          case Raised(e) =>
            if failfast {
              end := FailedFast(e);
            }
          case Returned(v) =>
            if Truthy(v) {
              end := Won(inst, v);
            }
        }
      }
      i := i + 1;
    }
    if end.Exhausted? {
      assert insts[i..] == [] && tried + [] == tried;
    }
  }

  /**
   * What __init__ builds: the registry of instances (one per class, composed
   * with the extra bases when there are any), the class list, and the store
   * in `dir`, which shares the registry once it is non-empty.
   */
  method Build(subrepos: seq<RepoClass>, extrabases: seq<string>, root: ConfigTree,
               configPath: seq<string>, world: RepoClass -> Behaviour, fs: FileSystem, dir: string,
               storageDir: bool, ownListing: (string, bool) -> seq<string>)
    returns (registry: Registry, store: CompositeStore, classes: seq<RepoClass>)
    requires Section(root, configPath).Some?
    ensures fresh(registry) && registry.Keyed() && store.docrepoInstances.Valid()
    ensures classes == Classes(subrepos, extrabases)
    ensures registry.order == Dedup(classes)
    ensures forall c :: c in classes ==> c in registry.items
    ensures Made(registry.items, root, configPath, world)
    ensures (store.docrepoInstances == registry) == (classes != [])
    ensures store.basefiles == map[] && store.fs == fs && store.datadir == dir
  {
    registry := new Registry();
    // the config setter, run by the base class constructor, builds a store while the registry is still empty
    var early := new CompositeStore(dir, storageDir, registry, fs, ownListing);
    var composed := InstantiateAll(subrepos, extrabases, registry, root, configPath, world);
    classes := if composed != [] then composed else subrepos;
    store := new CompositeStore(dir, storageDir, registry, fs, ownListing);
    if classes != [] {
      assert classes[0] in registry.items;
    }
  }

  class CompositeRepository {
    const alias: string
    var subrepos: seq<RepoClass>
    const extrabases: seq<string>
    const root: ConfigTree
    const configPath: seq<string>
    /** What each sub-repository class does when instantiated. */
    const world: RepoClass -> Behaviour
    var instances: Registry
    var store: CompositeStore
    const fs: FileSystem
    /** Every call made into a sub-repository, in order. */
    ghost var log: seq<Invocation>

    /** Construction has registered every sub-repository, so get_instance is a lookup from then on. */
    ghost predicate Valid()
      reads this, instances, store, store.docrepoInstances
    {
      instances.Keyed() &&
      store.docrepoInstances.Valid() &&
      store.fs == fs &&
      Section(root, configPath).Some? &&
      (forall c :: c in subrepos ==> c in instances.items)
    }

    function Config(): Settings
    {
      Settings(Setting(root, configPath, "force"), Setting(root, configPath, "parseforce"), Setting(root, configPath, "failfast"))
    }

    ghost function Insts(): seq<SubRepo>
      reads this`subrepos, this`instances, instances`items
      requires forall c :: c in subrepos ==> c in instances.items
    {
      InstancesOf(subrepos, instances.items)
    }

    /**
     * The constructor: classes are composed with `extrabases` when there are
     * any, every (composed) class is instantiated once, in order, and the
     * store shares the registry when it is non-empty.
     */
    constructor (alias: string, subrepos: seq<RepoClass>, extrabases: seq<string>, root: ConfigTree,
                 configPath: seq<string>, world: RepoClass -> Behaviour, fs: FileSystem, datadir: string,
                 storageDir: bool, ownListing: (string, bool) -> seq<string>)
      requires Section(root, configPath).Some?
      ensures Valid() && fresh(instances)
      ensures this.subrepos == Classes(subrepos, extrabases)
      ensures instances.order == Dedup(this.subrepos)
      ensures Made(instances.items, root, configPath, world)
      ensures (store.docrepoInstances == instances) == (this.subrepos != [])
      ensures store.basefiles == map[] && store.fs == fs && store.datadir == datadir + "/" + alias
      ensures log == []
    {
      var registry, final, classes := Build(subrepos, extrabases, root, configPath, world, fs, datadir + "/" + alias,
                                            storageDir, ownListing);
      this.alias := alias;
      this.extrabases := extrabases;
      this.root := root;
      this.configPath := configPath;
      this.world := world;
      this.fs := fs;
      this.subrepos := classes;
      this.instances := registry;
      this.store := final;
      log := [];
    }

    /** get_instance: memoised, one instance per class, configured from the matching subsection. */
    method GetInstance(c: RepoClass) returns (inst: SubRepo)
      requires instances.Keyed() && Section(root, configPath).Some?
      modifies instances
      ensures instances.Keyed()
      ensures c in instances.items && inst == instances.items[c]
      ensures c in old(instances.items) ==>
        inst == old(instances.items[c]) &&
        instances.items == old(instances.items) && instances.order == old(instances.order)
      ensures c !in old(instances.items) ==>
        fresh(inst) && inst.cls == c && inst.behaviour == world(c) &&
        inst.configPath == InstanceConfigPath(root, configPath, c.alias) &&
        instances.items == old(instances.items)[c := inst] && instances.order == old(instances.order) + [c]
    {
      inst := Instantiate(instances, c, root, configPath, world);
    }

    /** download: every sub-repository in order, failures swallowed, early stop once a requested basefile is got. */
    method Download(bf: Option<string>)
      requires Valid()
      modifies fs, store.docrepoInstances, this`log
      ensures Valid()
      ensures instances.items == old(instances.items) && instances.order == old(instances.order)
      ensures var run := DownloadSpec(old(Insts()), bf, old(fs.files));
        fs.files == run.disk && log == old(log) + DownloadLog(run.tried, bf) &&
        store.docrepoInstances.items == Registered(old(store.docrepoInstances.items), instances.items, run.tried)
    {
      LookedUp(subrepos, instances.items);
      var tried, disk := DownloadEach(subrepos, instances.items, Insts(), store.docrepoInstances, bf, fs.files);
      fs.files := disk;
      log := log + DownloadLog(tried, bf);
    }

    /** copy_parsed: the freshness skip, then entry, distilled, parsed and the parsed attachments. */
    method CopyParsed(bf: string, inst: SubRepo)
      modifies fs
      ensures fs.files == CopyParsedSpec(Config().force, inst, bf, old(fs.files))
    {
      var cls := inst.cls;
      if CopyUpToDate(Config().force, cls, bf, fs.files) {
        return;
      }
      fs.files := LinkOrCopy(fs.files, SubPath(cls, Entry, bf, None), CompPath(Entry, bf, None));
      fs.files := LinkOrCopy(fs.files, SubPath(cls, Distilled, bf, None), CompPath(Distilled, bf, None));
      fs.files := LinkOrCopy(fs.files, SubPath(cls, Parsed, bf, None), CompPath(Parsed, bf, None));
      if inst.behaviour.storageDir {
        var atts := inst.behaviour.attachments(bf);
        ghost var base := fs.files;
        for k := 0 to |atts|
          invariant fs.files == CopyAttachments(base, cls, bf, atts[..k])
        {
          assert atts[..k + 1][..k] == atts[..k];
          fs.files := LinkOrCopy(fs.files, SubPath(cls, Parsed, bf, Some(atts[k])), CompPath(Parsed, bf, Some(atts[k])));
        }
        assert atts[..|atts|] == atts;
      }
    }

    /** The short-circuit test of parse: some sub-repository does not need to parse and the composite has a parsed file. */
    method UpToDateElsewhere(bf: string) returns (skip: bool)
      requires Valid()
      ensures skip == (SomeNotNeeded(Insts(), bf) && CompPath(Parsed, bf, None) in fs.files)
    {
      ghost var insts := Insts();
      var order := subrepos;
      var items := instances.items;
      for i := 0 to |order|
        invariant CompPath(Parsed, bf, None) !in fs.files || forall j :: 0 <= j < i ==> insts[j].behaviour.needed(bf)
      {
        var inst := items[order[i]];  // get_instance: registered at construction
        InstancesAt(order, items, i);
        var needed := inst.behaviour.needed(bf);
        if !needed && CompPath(Parsed, bf, None) in fs.files {
          return true;
        }
      }
      return false;
    }

    /** The fallback loop of parse over get_preferred_instances. */
    method ParseFallback(bf: string, failfast: bool) returns (end: End)
      requires Valid()
      modifies fs, this`log
      ensures var a := TryPreferred(old(Insts()), bf, old(store.basefiles), failfast, old(fs.files));
        end == a.end && fs.files == a.disk && log == old(log) + ParseLog(a.tried, bf)
      ensures end.Won? ==> Truthy(end.value)
    {
      var tried, disk;
      LookedUp(subrepos, instances.items);
      end, tried, disk := TryEach(subrepos, instances.items, Insts(), bf, store.basefiles, failfast, fs.files);
      fs.files := disk;
      log := log + ParseLog(tried, bf);
    }

    /** parse: the short-circuit skip, the ordered fallback, rename handling and the ParseError. */
    method Parse(bf: string, now: int) returns (r: ParseOutcome)
      requires Valid()
      modifies fs, this`log
      ensures var run := ParseSpec(subrepos, old(Insts()), bf, old(store.basefiles), Config(), old(fs.files), now);
        r == run.outcome && fs.files == run.disk && log == old(log) + ParseLog(run.tried, bf)
    {
      var cfg := Config();
      var force := IsTrue(cfg.force) || IsTrue(cfg.parseforce);
      if !force {
        var skip := UpToDateElsewhere(bf);
        if skip {
          return Skipped;
        }
      }
      ghost var a := TryPreferred(Insts(), bf, store.basefiles, Truthy(cfg.failfast), fs.files);
      var end := ParseFallback(bf, Truthy(cfg.failfast));
      r := Finish(bf, now, end, a);
    }

    /** The end of parse (after the fallback): re-raise, report the error, or rename and copy the winner's artifacts. */
    method Finish(bf: string, now: int, end: End, ghost a: Attempt) returns (r: ParseOutcome)
      requires a.end == end && a.disk == fs.files
      requires end.Won? ==> Truthy(end.value)
      modifies fs
      ensures var run := Conclude(subrepos, bf, store.basefiles, Config(), a, now);
        r == run.outcome && fs.files == run.disk
    {
      match end {
        case FailedFast(e) =>
          return Reraised(e);
        case Exhausted =>
          var labels := Labels(subrepos, store.basefiles, bf);
          if labels != [] {
            return NoInstanceAble(labels);
          }
          return NoneAvailable(|subrepos|);
        case Won(inst, ret) =>
          var oldBasefile := bf;
          var basefile := bf;
          if !IsTrue(ret) && ret != PStr(bf) {
            basefile := ret.s;
            fs.files := fs.files[CompPath(Parsed, oldBasefile, None) := FileData("", now)];
          }
          CopyParsed(basefile, inst);
          if basefile != oldBasefile {
            return Renamed(oldBasefile, basefile);
          }
          return Done(ret);
      }
    }
  }
}
