/** zboxcore/allocationchange/copyobject.go. */
module CopyObjects {
  import opened Options
  import opened Paths
  import opened RefTrees
  import opened TreeWalks

  /** The children of one directory in order, each with what is below it. */
  datatype Forest = Nil | Cons(ref: Ref, kids: Forest, next: Forest)

  ghost function Tops(f: Forest): seq<Ref> {
    match f
    case Nil => []
    case Cons(ref, _, next) => [ref] + Tops(next)
  }

  ghost function Refs(f: Forest): set<Ref> {
    match f
    case Nil => {}
    case Cons(ref, kids, next) => {ref} + Refs(kids) + Refs(next)
  }

  /** No node is met twice. */
  ghost predicate Apart(f: Forest) {
    match f
    case Nil => true
    case Cons(ref, kids, next) =>
      && ref !in Refs(kids) && ref !in Refs(next) && (forall r :: r in Refs(kids) ==> r !in Refs(next))
      && Apart(kids) && Apart(next)
  }

  /** The nodes hang together as the forest says. */
  ghost predicate Matches(f: Forest)
    reads Refs(f)`Children
  {
    match f
    case Nil => true
    case Cons(ref, kids, next) =>
      && ref.Children == Tops(kids) && (ref.Type.FILE? ==> kids.Nil?)
      && Matches(kids) && Matches(next)
  }

  datatype Place = Place(ref: Ref, path: string)

  /** Where each node of a forest belongs below a directory, parents before their children. */
  ghost function Places(f: Forest, dirPath: string): seq<Place>
    decreases f, 0
  {
    match f
    case Nil => []
    case Cons(ref, kids, next) =>
      PlacesFrom(ref, kids, dirPath) + Places(next, dirPath)
  }

  ghost function PlacesFrom(ref: Ref, kids: Forest, dirPath: string): seq<Place>
    decreases kids, 1
  {
    var path := Join(dirPath, ref.Name);
    [Place(ref, path)] + Places(kids, path)
  }

  /** The uuid after these places were given ids. */
  ghost function IdAfter(sha1: (string, string) -> string, uuid: string, places: seq<Place>): string {
    if places == [] then uuid
    else sha1(IdAfter(sha1, uuid, places[..|places| - 1]), places[|places| - 1].ref.Name)
  }

  /** The file ids after that. */
  ghost function EntriesAfter(sha1: (string, string) -> string, uuid: string, entries: map<string, string>,
                              places: seq<Place>): map<string, string> {
    if places == [] then entries
    else
      EntriesAfter(sha1, uuid, entries, places[..|places| - 1])[places[|places| - 1].path := IdAfter(sha1, uuid, places)]
  }

  ghost function RefsOf(places: seq<Place>): set<Ref> {
    if places == [] then {} else RefsOf(places[..|places| - 1]) + {places[|places| - 1].ref}
  }

  /** Each node has its path and its id. */
  ghost predicate Settled(places: seq<Place>, sha1: (string, string) -> string, uuid: string)
    reads RefsOf(places)
  {
    places == [] ||
    (var last := places[|places| - 1];
     && Settled(places[..|places| - 1], sha1, uuid)
     && last.ref.Path == last.path && last.ref.FileID == IdAfter(sha1, uuid, places))
  }

  /** `done` has been settled, with the uuid and the file ids that go with it. */
  ghost predicate Ledger(done: seq<Place>, sha1: (string, string) -> string, uuid: string, entries: map<string, string>,
                         newUuid: string, newEntries: map<string, string>)
    reads RefsOf(done)
  {
    && Settled(done, sha1, uuid) && newUuid == IdAfter(sha1, uuid, done)
    && newEntries == EntriesAfter(sha1, uuid, entries, done)
  }

  /** Half way through the children of a directory: `before` are those that are done, `sofar` where they and what is
      below them went; `seen` were done earlier. */
  datatype Tour = Tour(f: Forest, path: string, children: seq<Ref>, seen: set<Ref>, before: seq<Ref>, sofar: seq<Place>,
                       rest: Forest)

  ghost predicate OnTour(t: Tour, done: set<Ref>) {
    && t.children == t.before + Tops(t.rest) && Places(t.f, t.path) == t.sofar + Places(t.rest, t.path)
    && (t.rest == t.f || t.rest < t.f) && Apart(t.rest)
    && (forall r :: r in Refs(t.rest) ==> r in Refs(t.f) && r !in done)
    && done + Refs(t.rest) == t.seen + Refs(t.f)
  }

  ghost function Stepped(t: Tour): Tour
    requires t.rest.Cons?
  {
    t.(before := t.before + [t.rest.ref], sofar := t.sofar + PlacesFrom(t.rest.ref, t.rest.kids, t.path),
       rest := t.rest.next)
  }

  /** The next child is the first tree of the rest. */
  lemma TourNext(t: Tour, done: set<Ref>)
    requires OnTour(t, done) && |t.before| < |t.children|
    ensures t.rest.Cons? && Apart(t.rest) && t.children[|t.before|] == t.rest.ref && t.rest.kids < t.f
    ensures t.rest.ref in Refs(t.f) && t.rest.ref !in done
    ensures forall r :: r in Refs(t.rest.kids) ==> r in Refs(t.f) && r !in done && r != t.rest.ref
  {
  }

  /** After it the tour has one more child behind it. */
  lemma TourOn(t: Tour, done: set<Ref>, more: set<Ref>)
    requires OnTour(t, done) && t.rest.Cons? && Grew(done, more, {t.rest.ref} + Refs(t.rest.kids))
    ensures OnTour(Stepped(t), more)
  {
  }

  ghost predicate Grew(before: set<Ref>, after: set<Ref>, gain: set<Ref>) {
    after == before + gain
  }

  lemma TourEnd(t: Tour, done: set<Ref>)
    requires OnTour(t, done) && |t.before| == |t.children|
    ensures t.sofar == Places(t.f, t.path) && Grew(t.seen, done, Refs(t.f))
  {
  }

  lemma TourStart(f: Forest, path: string, children: seq<Ref>, seen: set<Ref>)
    requires children == Tops(f) && Apart(f) && forall r :: r in Refs(f) ==> r !in seen
    ensures OnTour(Tour(f, path, children, seen, [], [], f), seen)
  {
  }

  lemma MatchesFirst(f: Forest)
    requires Matches(f) && Apart(f) && f.Cons?
    ensures f.ref.Children == Tops(f.kids) && (f.ref.Type.FILE? ==> f.kids.Nil?) && Matches(f.kids) && Matches(f.next)
    ensures Apart(f.kids) && f.ref !in Refs(f.kids)
  {
  }

  lemma {:induction false} SettledAt(places: seq<Place>, sha1: (string, string) -> string, uuid: string, k: nat)
    requires k < |places| && Settled(places, sha1, uuid)
    ensures places[k].ref.Path == places[k].path && places[k].ref.FileID == IdAfter(sha1, uuid, places[..k + 1])
    decreases |places|
  {
    var front := places[..|places| - 1];
    if k < |front| {
      SettledAt(front, sha1, uuid, k);
      assert front[..k + 1] == places[..k + 1];
    } else {
      assert places[..k + 1] == places;
    }
  }

  /** Nodes that are where they belong make a consistent forest. */
  lemma {:induction false} PlacedTogether(f: Forest, dirPath: string)
    requires Matches(f) && forall k :: 0 <= k < |Places(f, dirPath)| ==> IsPlaced(Places(f, dirPath)[k])
    ensures Consistent(Refs(f)) && forall c :: c in Tops(f) ==> c in Refs(f) && c.Path == Join(dirPath, c.Name)
  {
    match f
    case Nil =>
    case Cons(ref, kids, next) =>
      var path := Join(dirPath, ref.Name);
      var a, b := Places(kids, path), Places(next, dirPath);
      var all := [Place(ref, path)] + a + b;
      assert Places(f, dirPath) == all;
      forall k | 0 <= k < |a|
        ensures IsPlaced(a[k])
      {
        assert a[k] == all[k + 1];
      }
      forall k | 0 <= k < |b|
        ensures IsPlaced(b[k])
      {
        assert b[k] == all[k + 1 + |a|];
      }
      assert IsPlaced(all[0]);
      PlacedTogether(kids, path);
      PlacedTogether(next, dirPath);
  }

  ghost predicate IsPlaced(p: Place)
    reads p.ref
  {
    p.ref.Path == p.path
  }

  lemma HangsTogether(ref: Ref, kids: Forest, dirPath: string, places: seq<Place>, sha1: (string, string) -> string,
                      uuid: string, entries: map<string, string>, newUuid: string, newEntries: map<string, string>)
    requires ref.Children == Tops(kids) && (ref.Type.FILE? ==> kids.Nil?) && Matches(kids)
    requires places == PlacesFrom(ref, kids, dirPath)
    requires Ledger(places, sha1, uuid, entries, newUuid, newEntries)
    ensures Consistent(Refs(Cons(ref, kids, Nil))) && ref.Path == Join(dirPath, ref.Name)
  {
    var f := Cons(ref, kids, Nil);
    assert places + [] == places;
    forall k | 0 <= k < |places|
      ensures IsPlaced(places[k])
    {
      SettledAt(places, sha1, uuid, k);
    }
    PlacedTogether(f, dirPath);
  }

  lemma LedgerStart(sha1: (string, string) -> string, uuid: string, entries: map<string, string>)
    ensures Ledger([], sha1, uuid, entries, uuid, entries) && RefsOf([]) == {}
  {
  }

  /** One child list has gained the first tree of a consistent forest. */
  lemma Attached(nodes: set<Ref>, children: map<Ref, seq<Ref>>, dirRef: Ref, f: Forest)
    requires f.Cons? && Consistent(Refs(f)) && dirRef in nodes && children.Keys == nodes
    requires forall n, c {:trigger c in children[n]} ::
      n in nodes && c in children[n] ==> c in nodes && c.Path == Join(n.Path, c.Name)
    requires forall n :: n in nodes && n != dirRef ==> n.Children == children[n]
    requires Inserted(children[dirRef], dirRef.Children, f.ref) && f.ref.Path == Join(dirRef.Path, f.ref.Name)
    ensures Consistent(nodes + Refs(f))
  {
    InsertedMembers(children[dirRef], dirRef.Children, f.ref);
  }

  /** The tree after a walk and a copy. The trail still leads from the root along the fields; its first part was there
      already, each directory after it is new and has the next one as its only child, and the object is below the last
      one. Where the walk created nothing, that one old child list has gained the object; otherwise one old child list
      has gained the first new directory. */
  ghost predicate Grown(w: Walk, obj: Ref)
    reads w.after
  {
    && Bounded(w) && w.nodes <= w.after && (forall n :: n in w.after ==> n in w.nodes || n in w.trail)
    && w.trail[0] == w.root && IsTrail(w.trail, w.fields, w.after) && AtTheirPaths(w)
    && WasThere(w.kids, w.trail, w.fields, w.first)
    && (w.first < w.i ==> FirstNamed(w.kids[w.trail[w.first]], w.fields[w.first]).None?)
    && (forall n :: n in w.nodes && n != w.trail[w.first] ==> n.Children == w.kids[n])
    && GrownAt(w, obj)
  }

  ghost predicate AtTheirPaths(w: Walk)
    requires Bounded(w)
    reads w.trail
  {
    forall j :: 0 <= j <= w.i ==> w.trail[j].Path == PathOf(w.fields[..j])
  }

  ghost predicate GrownAt(w: Walk, obj: Ref)
    requires Bounded(w) && w.trail[w.first] in w.kids
    reads w.trail
  {
    && var grown := w.trail[w.first];
    && Inserted(w.kids[grown], grown.Children, if w.first < w.i then w.trail[w.first + 1] else obj)
    && (forall j :: w.first < j <= w.i ==> w.trail[j] !in w.nodes)
    && (forall j {:trigger w.trail[j].Children} :: w.first < j < w.i ==> w.trail[j].Children == [w.trail[j + 1]])
    && (w.first < w.i ==> Last(w).Children == [obj])
  }

  datatype Outcome = Copied | BadPath | Panic | FileNotFound

  /** A copied object as it was read, apart from the tree it goes to. */
  ghost predicate IsObject(obj: Ref, kids: Forest, nodes: set<Ref>)
    reads obj, Refs(kids)
  {
    && obj.Children == Tops(kids) && Matches(kids) && Apart(Cons(obj, kids, Nil))
    && (obj.Type.FILE? ==> kids.Nil?)
    && obj !in nodes && (forall r :: r in Refs(kids) ==> r !in nodes)
  }

  lemma ObjectParts(obj: Ref, kids: Forest, nodes: set<Ref>)
    requires IsObject(obj, kids, nodes)
    ensures obj.Children == Tops(kids) && Matches(kids) && Apart(kids) && (obj.Type.FILE? ==> kids.Nil?)
    ensures obj !in Refs(kids) && Refs(Cons(obj, kids, Nil)) == {obj} + Refs(kids)
    ensures forall r :: r in Refs(Cons(obj, kids, Nil)) ==> r !in nodes
  {
  }

  /** A walk that ran to the end, with the child lists at that moment. */
  ghost predicate Ended(w: Walk, lists: map<Ref, seq<Ref>>) {
    && Bounded(w) && w.i == |w.fields| && lists.Keys == w.after && w.nodes <= w.after
    && (forall n :: n in w.after ==> n in w.nodes || n in w.trail)
    && w.trail[0] == w.root && WasThere(lists, w.trail, w.fields, w.i) && WasThere(w.kids, w.trail, w.fields, w.first)
    && (w.first < w.i ==> FirstNamed(w.kids[w.trail[w.first]], w.fields[w.first]).None?)
    && (forall n :: n in w.nodes ==> lists[n] == w.kids[n] || (w.first < w.i && n == w.trail[w.first]))
    && (w.first < w.i ==> Inserted(w.kids[w.trail[w.first]], lists[w.trail[w.first]], w.trail[w.first + 1]))
    && (forall j :: w.first < j <= w.i ==> w.trail[j] !in w.nodes)
    && (forall j {:trigger lists[w.trail[j]]} :: w.first < j < w.i ==> lists[w.trail[j]] == [w.trail[j + 1]])
    && (w.first < w.i ==> lists[Last(w)] == [])
    && (forall j :: 0 <= j < w.i ==> w.trail[j] != Last(w))
  }

  lemma EndOfWalk(w: Walk, sha1: (string, string) -> string, uuid: string, entries: map<string, string>, newUuid: string,
                  newEntries: map<string, string>)
    requires Progress(w, sha1, uuid, entries, newUuid, newEntries) && w.i == |w.fields| && AllNames(w.fields)
    ensures IsTree(w.root, w.after) && (forall j :: 0 <= j <= w.i ==> w.trail[j] in w.after)
    ensures AtTheirPaths(w) && Ended(w, Kids(w.after))
  {
    hide PathOf, Inserted, FirstNamed, WasThere, Booked, Labelled, Ended, Consistent, Join;
    var lists := Kids(w.after);
    AllThere(w, sha1, uuid, entries, newUuid, newEntries);
    forall j | 0 <= j <= w.i
      ensures w.trail[j].Path == PathOf(w.fields[..j])
    {
      TrailPath(w.root, w.after, w.trail, w.fields, w.i, j);
    }
    LastApart(w);
    EndedInLists(w, lists);
  }

  lemma LastApart(w: Walk)
    requires Bounded(w) && w.i == |w.fields| && AllNames(w.fields) && AtTheirPaths(w)
    ensures forall j :: 0 <= j < w.i ==> w.trail[j] != Last(w)
  {
    forall j | 0 <= j < w.i
      ensures w.trail[j] != Last(w)
    {
      if w.trail[j] == Last(w) {
        PathOfInjective(w.fields[..j], w.fields[..w.i]);
      }
    }
  }

  lemma EndedInLists(w: Walk, lists: map<Ref, seq<Ref>>)
    requires Bounded(w) && Reached(w) && w.i == |w.fields| && lists == Kids(w.after)
    requires w.trail[0] == w.root && WasThere(lists, w.trail, w.fields, w.i)
    requires forall j :: 0 <= j < w.i ==> w.trail[j] != Last(w)
    ensures Ended(w, lists)
  {
    hide PathOf, Inserted, FirstNamed, WasThere, Walked;
    forall j {:trigger lists[w.trail[j]]} | w.first < j < w.i
      ensures lists[w.trail[j]] == [w.trail[j + 1]]
    {
      assert w.trail[j].Children == [w.trail[j + 1]];
    }
  }

  /** When only the last node's child list has changed since, and has gained the object, the tree has grown as it should. */
  lemma GrownAfter(w: Walk, lists: map<Ref, seq<Ref>>, obj: Ref)
    requires Ended(w, lists) && AtTheirPaths(w)
    requires forall n :: n in w.after && n != Last(w) ==> n.Children == lists[n]
    requires Inserted(lists[Last(w)], Last(w).Children, obj)
    ensures Grown(w, obj)
  {
    hide PathOf, FirstNamed, AtTheirPaths, Inserted, IsTrail, LeadsTo, AreFields, GrownAt;
    TrailInLists(w, lists);
    TrailKept(w, lists);
    GrownAtEnd(w, lists, obj);
  }

  lemma GrownAtEnd(w: Walk, lists: map<Ref, seq<Ref>>, obj: Ref)
    requires Ended(w, lists) && w.trail[w.first] in w.kids && forall j :: 0 <= j <= w.i ==> w.trail[j] in lists
    requires forall n :: n in w.after && n != Last(w) ==> n.Children == lists[n]
    requires Inserted(lists[Last(w)], Last(w).Children, obj)
    ensures GrownAt(w, obj)
  {
    hide PathOf, FirstNamed, WasThere, Inserted, AreFields, Ended;
    EndedLists(w, lists);
    OneBelowOther(w, lists);
    if w.first < w.i {
      InsertedAlone(Last(w).Children, obj);
    }
  }

  /** What the walk created, and where it began to. */
  lemma EndedLists(w: Walk, lists: map<Ref, seq<Ref>>)
    requires Ended(w, lists) && w.trail[w.first] in w.kids && forall j :: 0 <= j <= w.i ==> w.trail[j] in lists
    ensures Bounded(w)
    ensures lists.Keys == w.after && (forall j :: w.first < j <= w.i ==> w.trail[j] !in w.nodes)
    ensures w.first < w.i ==> w.trail[w.first] != Last(w) && lists[Last(w)] == []
    ensures w.first < w.i ==> Inserted(w.kids[w.trail[w.first]], lists[w.trail[w.first]], w.trail[w.first + 1])
    ensures w.first == w.i ==> lists[Last(w)] == w.kids[Last(w)]
  {
    hide WasThere, Inserted, FirstNamed, AreFields;
  }

  /** A created directory has the next one as its only child. */
  lemma OneBelowOther(w: Walk, lists: map<Ref, seq<Ref>>)
    requires Ended(w, lists) && forall j :: 0 <= j <= w.i ==> w.trail[j] in lists
    requires forall n :: n in w.after && n != Last(w) ==> n.Children == lists[n]
    ensures forall j {:trigger w.trail[j].Children} :: w.first < j < w.i ==> w.trail[j].Children == [w.trail[j + 1]]
  {
    hide WasThere, Inserted, FirstNamed, AreFields;
    forall j {:trigger w.trail[j].Children} | w.first < j < w.i
      ensures w.trail[j].Children == [w.trail[j + 1]]
    {
      assert lists[w.trail[j]] == [w.trail[j + 1]];
    }
  }

  lemma TrailInLists(w: Walk, lists: map<Ref, seq<Ref>>)
    requires Ended(w, lists)
    ensures (forall j :: 0 <= j <= w.i ==> w.trail[j] in lists) && w.trail[w.first] in w.kids
  {
  }

  /** A change to the child list of the last node of a trail does not touch the trail. */
  lemma TrailKept(w: Walk, lists: map<Ref, seq<Ref>>)
    requires Bounded(w) && w.i == |w.fields| && lists.Keys == w.after && WasThere(lists, w.trail, w.fields, w.i)
    requires forall j :: 0 <= j < w.i ==> w.trail[j] in lists && w.trail[j].Children == lists[w.trail[j]]
    ensures IsTrail(w.trail, w.fields, w.after)
  {
  }

  lemma WalkEnd(w: Walk, sha1: (string, string) -> string, uuid: string, entries: map<string, string>, newUuid: string,
                newEntries: map<string, string>)
    requires Progress(w, sha1, uuid, entries, newUuid, newEntries)
    ensures Bounded(w) && Booked(w, sha1, uuid, entries, newUuid, newEntries) && w.nodes <= w.after
    ensures Last(w) in w.after && Last(w).Type.DIRECTORY?
    ensures w.i == |w.fields| ==> Last(w).Path == PathOf(w.fields)
  {
    if w.i == |w.fields| {
      assert w.fields[..w.i] == w.fields;
    }
  }

  lemma DestNames(path: string, fields: seq<string>)
    requires GetPathFields(path) == Some(fields) && path == PathOf(fields)
    ensures AllNames(fields)
  {
    FieldsAreNames(path);
  }

  lemma NothingBelow(kids: Forest, path: string, done: set<Ref>)
    requires kids.Nil?
    ensures Places(kids, path) == [] && Grew(done, done, Refs(kids))
  {
  }

  /** A node and then what is below it. */
  lemma NodeDone(ref: Ref, kids: Forest, dirPath: string, done: seq<Place>, one: seq<Place>, more: seq<Place>)
    requires one == done + [Place(ref, Join(dirPath, ref.Name))] && RefsOf(one) == RefsOf(done) + {ref}
    requires more == one + Places(kids, Join(dirPath, ref.Name)) && Grew(RefsOf(one), RefsOf(more), Refs(kids))
    ensures more == done + PlacesFrom(ref, kids, dirPath) && Grew(RefsOf(done), RefsOf(more), {ref} + Refs(kids))
  {
    hide Places, Refs, Join, RefsOf;
  }

  class CopyFileChange {
    const sha1: (string, string) -> string
    const ObjectTree: Ref
    const DestPath: string
    var Uuid: string

    constructor (sha1: (string, string) -> string, objectTree: Ref, destPath: string, uuid: string)
      ensures this.sha1 == sha1 && ObjectTree == objectTree && DestPath == destPath && Uuid == uuid
    {
      this.sha1, ObjectTree, DestPath, Uuid := sha1, objectTree, destPath, uuid;
    }

    /** What happens to one node: it moves below dirPath and gets the next id. */
    method Settle(ref: Ref, dirPath: string, meta: FileIDMeta, ghost uuid: string, ghost entries: map<string, string>,
                  ghost done: seq<Place>) returns (ghost more: seq<Place>)
      requires Ledger(done, sha1, uuid, entries, Uuid, meta.entries) && ref !in RefsOf(done)
      modifies this`Uuid, meta, ref`Path, ref`FileID
      ensures more == done + [Place(ref, Join(dirPath, ref.Name))] && RefsOf(more) == RefsOf(done) + {ref}
      ensures Ledger(more, sha1, uuid, entries, Uuid, meta.entries) && ref.Path == Join(dirPath, ref.Name)
      ensures Uuid == sha1(old(Uuid), ref.Name) && ref.FileID == Uuid
      ensures meta.entries == old(meta.entries)[ref.Path := Uuid]
    {
      ref.Path := Join(dirPath, ref.Name);
      Uuid := sha1(Uuid, ref.Name);
      ref.FileID := Uuid;
      meta.entries := meta.entries[ref.Path := ref.FileID];
      more := done + [Place(ref, ref.Path)];
      assert more[..|more| - 1] == done;
    }

    /** One node and what is below it. */
    method ProcessNode(ref: Ref, dirPath: string, meta: FileIDMeta, ghost kids: Forest, ghost uuid: string,
                       ghost entries: map<string, string>, ghost done: seq<Place>) returns (ghost more: seq<Place>)
      requires ref.Children == Tops(kids) && Matches(kids) && Apart(kids) && ref !in Refs(kids)
      requires ref.Type.FILE? ==> kids.Nil?
      requires Ledger(done, sha1, uuid, entries, Uuid, meta.entries) && ref !in RefsOf(done)
      requires forall r :: r in Refs(kids) ==> r !in RefsOf(done) && allocated(r)
      modifies this`Uuid, meta, ref`Path, ref`FileID, Refs(kids)`Path, Refs(kids)`FileID
      ensures more == done + PlacesFrom(ref, kids, dirPath) && Grew(RefsOf(done), RefsOf(more), {ref} + Refs(kids))
      ensures Ledger(more, sha1, uuid, entries, Uuid, meta.entries)
      decreases kids, 2
    {
      hide Ledger, Matches, Refs, RefsOf, Places, PlacesFrom, Tops, Apart, Grew, Join;
      more := Settle(ref, dirPath, meta, uuid, entries, done);
      ghost var one := more;
      if ref.Type.DIRECTORY? {
        more := ProcessChildren(ref, meta, kids, uuid, entries, more);
      } else {
        NothingBelow(kids, ref.Path, RefsOf(one));
      }
      NodeDone(ref, kids, dirPath, done, one, more);
    }

    /** The next child of a directory. */
    method ProcessNext(curRef: Ref, i: nat, meta: FileIDMeta, ghost t: Tour, ghost uuid: string,
                       ghost entries: map<string, string>, ghost done: seq<Place>) returns (ghost more: seq<Place>)
      requires i == |t.before| < |curRef.Children| && curRef.Children == t.children && curRef.Path == t.path
      requires OnTour(t, RefsOf(done)) && Matches(t.rest) && curRef !in Refs(t.f)
      requires Ledger(done, sha1, uuid, entries, Uuid, meta.entries) && forall r :: r in Refs(t.f) ==> allocated(r)
      modifies this`Uuid, meta, Refs(t.f)`Path, Refs(t.f)`FileID
      ensures t.rest.Cons? && OnTour(Stepped(t), RefsOf(more)) && Matches(t.rest.next)
      ensures more == done + PlacesFrom(t.rest.ref, t.rest.kids, t.path)
      ensures Ledger(more, sha1, uuid, entries, Uuid, meta.entries)
      ensures curRef.Children == t.children && curRef.Path == t.path
      decreases t.f, 0
    {
      hide Ledger, OnTour, Matches, Refs, RefsOf, Places, PlacesFrom, Tops, Apart, Grew;
      ghost var seen := RefsOf(done);
      TourNext(t, seen);
      MatchesFirst(t.rest);
      more := ProcessNode(curRef.Children[i], curRef.Path, meta, t.rest.kids, uuid, entries, done);
      TourOn(t, seen, RefsOf(more));
    }

    /** Goes through the children of a directory, and through theirs. */
    method ProcessChildren(curRef: Ref, meta: FileIDMeta, ghost f: Forest, ghost uuid: string,
                           ghost entries: map<string, string>, ghost done: seq<Place>) returns (ghost more: seq<Place>)
      requires curRef.Children == Tops(f) && Matches(f) && Apart(f) && curRef !in Refs(f)
      requires Ledger(done, sha1, uuid, entries, Uuid, meta.entries)
      requires forall r :: r in Refs(f) ==> r !in RefsOf(done) && allocated(r)
      modifies this`Uuid, meta, Refs(f)`Path, Refs(f)`FileID
      ensures more == done + Places(f, curRef.Path) && Grew(RefsOf(done), RefsOf(more), Refs(f))
      ensures Ledger(more, sha1, uuid, entries, Uuid, meta.entries)
      decreases f, 1
    {
      hide Ledger, OnTour, Matches, Refs, RefsOf, Places, PlacesFrom, Tops, Apart, Grew;
      more := done;
      ghost var t := Tour(f, curRef.Path, curRef.Children, RefsOf(done), [], [], f);
      TourStart(f, t.path, t.children, t.seen);
      var i := 0;
      while i < |curRef.Children|
        invariant OnTour(t, RefsOf(more)) && t.f == f && t.seen == RefsOf(done)
        invariant curRef.Children == t.children && curRef.Path == t.path && Matches(t.rest)
        invariant 0 <= i == |t.before| <= |curRef.Children|
        invariant more == done + t.sofar
        invariant Ledger(more, sha1, uuid, entries, Uuid, meta.entries)
      {
        more := ProcessNext(curRef, i, meta, t, uuid, entries, more);
        t := Stepped(t);
        i := i + 1;
      }
      TourEnd(t, RefsOf(more));
    }

    /** The object goes below a directory. */
    method Attach(dirRef: Ref, meta: FileIDMeta, ghost kids: Forest, ghost root: Ref, ghost nodes: set<Ref>)
        returns (ghost places: seq<Place>)
      requires IsTree(root, nodes) && dirRef in nodes
      requires IsObject(ObjectTree, kids, nodes) && forall r :: r in Refs(kids) ==> allocated(r)
      modifies this`Uuid, meta, dirRef`Children, ObjectTree`Path, ObjectTree`FileID, Refs(kids)`Path, Refs(kids)`FileID
      ensures places == PlacesFrom(ObjectTree, kids, dirRef.Path)
      ensures Ledger(places, sha1, old(Uuid), old(meta.entries), Uuid, meta.entries)
      ensures Inserted(old(dirRef.Children), dirRef.Children, ObjectTree)
      ensures IsTree(root, nodes + Refs(Object(kids))) && ObjectTree.Children == Tops(kids) && Matches(kids)
    {
      hide Ledger, Matches, RefsOf, Refs, Places, PlacesFrom, Tops, Apart, Inserted, IsObject;
      ghost var children := Kids(nodes);
      LedgerStart(sha1, Uuid, meta.entries);
      ObjectParts(ObjectTree, kids, nodes);
      places := ProcessNode(ObjectTree, dirRef.Path, meta, kids, Uuid, meta.entries, []);
      HangsTogether(ObjectTree, kids, dirRef.Path, places, sha1, old(Uuid), old(meta.entries), Uuid, meta.entries);
      dirRef.AddChild(ObjectTree);
      Attached(nodes, children, dirRef, Object(kids));
    }

    ghost function Object(kids: Forest): Forest {
      Cons(ObjectTree, kids, Nil)
    }

    /** The object goes to the end of a walk. */
    method AttachAt(dirRef: Ref, meta: FileIDMeta, ghost kids: Forest, ghost w: Walk, ghost uuid: string,
                    ghost entries: map<string, string>) returns (ghost places: seq<Place>)
      requires Progress(w, sha1, uuid, entries, Uuid, meta.entries) && w.i == |w.fields| && dirRef == Last(w)
      requires AllNames(w.fields) && IsObject(ObjectTree, kids, w.after) && forall r :: r in Refs(kids) ==> allocated(r)
      modifies this`Uuid, meta, dirRef`Children, ObjectTree`Path, ObjectTree`FileID, Refs(kids)`Path, Refs(kids)`FileID
      ensures places == PlacesFrom(ObjectTree, kids, dirRef.Path)
      ensures Ledger(places, sha1, old(Uuid), old(meta.entries), Uuid, meta.entries)
      ensures IsTree(w.root, w.after + Refs(Object(kids))) && ObjectTree.Children == Tops(kids) && Matches(kids)
      ensures Grown(w, ObjectTree) && Labelled(w, sha1, uuid)
    {
      hide Ledger, Matches, RefsOf, Refs, Places, PlacesFrom, Tops, Apart, Grew, Inserted, Consistent, Booked, UuidChain,
           WasThere, FirstNamed, PathOf, IsTrail, Reached, Ended, Grown, IsTree;
      ghost var lists := Kids(w.after);
      EndOfWalk(w, sha1, uuid, entries, Uuid, meta.entries);
      places := Attach(dirRef, meta, kids, w.root, w.after);
      GrownAfter(w, lists, ObjectTree);
    }

    /** Copies the object to the destination directory, which is created if need be. The destination has to be written
        as its fields are: otherwise the directories are there in the end but the object is not found. */
    method ProcessChange(root: Ref, meta: FileIDMeta, ghost nodes: set<Ref>, ghost kids: Forest)
        returns (r: Outcome, ghost w: Walk, ghost places: seq<Place>, ghost uuid: string, ghost entries: map<string, string>)
      requires IsTree(root, nodes) && IsObject(ObjectTree, kids, nodes) && forall r :: r in Refs(kids) ==> allocated(r)
      modifies this`Uuid, meta, nodes`Children, ObjectTree`Path, ObjectTree`FileID, Refs(kids)`Path, Refs(kids)`FileID
      ensures r.BadPath? <==> GetPathFields(DestPath).None?
      ensures r.BadPath? ==> w.after == nodes && Uuid == old(Uuid) && unchanged(meta) && Kids(nodes) == old(Kids(nodes))
      ensures !r.BadPath? ==> IsWalk(w, root, nodes, old(Kids(nodes)), GetPathFields(DestPath).value)
      ensures r.Panic? ==> w.first == w.i < |w.fields| && FileInTheWay(Last(w), w.fields[w.i])
      ensures r.Panic? <==> !r.BadPath? && Obstructed(old(Kids(nodes)), root, GetPathFields(DestPath).value, 0)
      ensures r.FileNotFound? || r.Copied? ==> w.i == |w.fields| && (r.Copied? <==> DestPath == PathOf(w.fields))
      ensures r.Panic? || r.FileNotFound? ==> Progress(w, sha1, old(Uuid), old(meta.entries), Uuid, meta.entries)
      ensures r.Copied? ==> Booked(w, sha1, old(Uuid), old(meta.entries), uuid, entries)
      ensures r.Copied? ==> places == PlacesFrom(ObjectTree, kids, DestPath)
      ensures r.Copied? ==> Ledger(places, sha1, uuid, entries, Uuid, meta.entries)
      ensures r.Copied? ==> IsTree(root, w.after + Refs(Object(kids))) && ObjectTree.Children == Tops(kids) && Matches(kids)
      ensures r.Copied? ==> Grown(w, ObjectTree) && Labelled(w, sha1, old(Uuid)) && AllNames(w.fields)
      ensures nodes <= w.after && forall n :: n in w.after ==> n in nodes || fresh(n)
      ensures !r.Copied? ==> forall n :: n in Refs(Object(kids)) ==> n.Path == old(n.Path) && n.FileID == old(n.FileID)
      ensures r.BadPath? <==> DestPath != "" && DestPath[0] != '/'
    {
      hide Progress, Booked, Labelled, Ledger, Matches, Places, PlacesFrom, Tops, Apart, Grown, IsTree, GetPathFields,
           FileInTheWay, PathOf, AllNames, Kids, Consistent, Obstructed;
      NoneIffRelative(DestPath);
      var parsed := GetPathFields(DestPath);
      if parsed.None? {
        w := Walk(root, nodes, map[], [], nodes, [root], 0, 0);
        return BadPath, w, [], Uuid, meta.entries;
      }
      FieldsAreNames(DestPath);
      var dirRef, blocked;
      Uuid, dirRef, blocked, w := Enter(sha1, Uuid, root, parsed.value, meta, nodes);
      places, uuid, entries := [], Uuid, meta.entries;
      BlockedIffObstructed(w, sha1, old(Uuid), old(meta.entries), Uuid, meta.entries);
      WalkEnd(w, sha1, old(Uuid), old(meta.entries), Uuid, meta.entries);
      if blocked {
        return Panic, w, places, uuid, entries;
      }
      if dirRef.Path != DestPath || !dirRef.Type.DIRECTORY? {
        return FileNotFound, w, places, uuid, entries;
      }
      DestNames(DestPath, parsed.value);
      places := AttachAt(dirRef, meta, kids, w, old(Uuid), old(meta.entries));
      r := Copied;
    }
  }

  // ----- the file ids after a copy

  /** Names can stand in paths, and children of one directory have different ones. */
  ghost predicate WellNamed(f: Forest) {
    match f
    case Nil => true
    case Cons(ref, kids, next) => IsName(ref.Name) && NoneNamed(next, ref.Name) && WellNamed(kids) && WellNamed(next)
  }

  ghost predicate NoneNamed(f: Forest, name: string) {
    f.Cons? ==> f.ref.Name != name && NoneNamed(f.next, name)
  }

  /** The path has the given parts and at least one more, and `name` comes next. */
  ghost predicate IsBelow(path: string, items: seq<string>, name: string) {
    var all := Items(path);
    |items| < |all| && all[..|items|] == items && all[|items|] == name && path == PathOf(all)
  }

  /** Every place of a forest is below its directory, under the name of one of the trees. */
  lemma {:induction false} PlaceBelow(f: Forest, items: seq<string>, k: nat, name: string)
    requires WellNamed(f) && AllNames(items) && k < |Places(f, PathOf(items))|
    requires NoneNamed(f, name)
    decreases f, 0
    ensures exists other :: other != name && IsBelow(Places(f, PathOf(items))[k].path, items, other)
  {
    var Cons(ref, kids, next) := f;
    var a, b := PlacesFrom(ref, kids, PathOf(items)), Places(next, PathOf(items));
    if k < |a| {
      ObjectBelow(ref, kids, items, k);
      assert Places(f, PathOf(items))[k] == a[k];
    } else {
      PlaceBelow(next, items, k - |a|, name);
      assert Places(f, PathOf(items))[k] == b[k - |a|];
    }
  }

  /** Every place of one tree is below its directory, under the tree's name. */
  lemma {:induction false} ObjectBelow(obj: Ref, kids: Forest, items: seq<string>, k: nat)
    requires IsName(obj.Name) && WellNamed(kids) && AllNames(items) && k < |PlacesFrom(obj, kids, PathOf(items))|
    decreases kids, 1
    ensures IsBelow(PlacesFrom(obj, kids, PathOf(items))[k].path, items, obj.Name)
  {
    var path, longer := Join(PathOf(items), obj.Name), items + [obj.Name];
    JoinAppends(items, obj.Name);
    if k == 0 {
      ItemsOfPath(longer);
    } else {
      NoneUnnamed(kids);
      PlaceBelow(kids, longer, k - 1, "");
      var other :| other != "" && IsBelow(Places(kids, path)[k - 1].path, longer, other);
      BelowLonger(Places(kids, path)[k - 1].path, items, obj.Name, other);
    }
  }

  lemma BelowLonger(path: string, items: seq<string>, name: string, other: string)
    requires IsBelow(path, items + [name], other)
    ensures IsBelow(path, items, name)
  {
    var all := Items(path);
    assert all[..|items|] == all[..|items| + 1][..|items|];
    assert all[|items|] == all[..|items| + 1][|items|];
  }

  lemma {:induction false} NoneUnnamed(f: Forest)
    requires WellNamed(f)
    ensures NoneNamed(f, "")
  {
    if f.Cons? {
      NoneUnnamed(f.next);
    }
  }

  /** Different nodes go to different paths. */
  lemma {:induction false} PlacesDiffer(f: Forest, items: seq<string>, k: nat, m: nat)
    requires WellNamed(f) && AllNames(items) && k < m < |Places(f, PathOf(items))|
    decreases f, 0
    ensures Places(f, PathOf(items))[k].path != Places(f, PathOf(items))[m].path
  {
    var Cons(ref, kids, next) := f;
    var a, b := PlacesFrom(ref, kids, PathOf(items)), Places(next, PathOf(items));
    if k < |a| <= m {
      ObjectBelow(ref, kids, items, k);
      PlaceBelow(next, items, m - |a|, ref.Name);
    } else if m < |a| {
      TreePlacesDiffer(ref, kids, items, k, m);
    } else {
      PlacesDiffer(next, items, k - |a|, m - |a|);
    }
  }

  lemma {:induction false} TreePlacesDiffer(obj: Ref, kids: Forest, items: seq<string>, k: nat, m: nat)
    requires IsName(obj.Name) && WellNamed(kids) && AllNames(items) && k < m < |PlacesFrom(obj, kids, PathOf(items))|
    decreases kids, 1
    ensures PlacesFrom(obj, kids, PathOf(items))[k].path != PlacesFrom(obj, kids, PathOf(items))[m].path
  {
    hide Places, Items, PathOf, Join;
    var longer := items + [obj.Name];
    JoinAppends(items, obj.Name);
    if k == 0 {
      ItemsOfPath(longer);
      NoneUnnamed(kids);
      PlaceBelow(kids, longer, m - 1, "");
    } else {
      PlacesDiffer(kids, longer, k - 1, m - 1);
    }
  }

  /** A path that no later place shares is mapped to the id given at its place. */
  lemma {:induction false} EntryOfPlace(sha1: (string, string) -> string, uuid: string, entries: map<string, string>,
                                        places: seq<Place>, k: nat)
    requires k < |places| && forall m :: k < m < |places| ==> places[m].path != places[k].path
    ensures var ids := EntriesAfter(sha1, uuid, entries, places);
            places[k].path in ids && ids[places[k].path] == IdAfter(sha1, uuid, places[..k + 1])
    decreases |places|
  {
    var front := places[..|places| - 1];
    if k < |front| {
      EntryOfPlace(sha1, uuid, entries, front, k);
      assert front[..k + 1] == places[..k + 1];
    } else {
      assert places[..k + 1] == places;
    }
  }

  lemma {:induction false} EntryElsewhere(sha1: (string, string) -> string, uuid: string, entries: map<string, string>,
                                          places: seq<Place>, path: string)
    requires forall k :: 0 <= k < |places| ==> places[k].path != path
    ensures var ids := EntriesAfter(sha1, uuid, entries, places);
            (path in ids <==> path in entries) && (path in entries ==> ids[path] == entries[path])
    decreases |places|
  {
    if places != [] {
      EntryElsewhere(sha1, uuid, entries, places[..|places| - 1], path);
    }
  }

  /** After a copy of a well-named object each of its nodes is at a path below the destination, and the file ids map
      that path to the node's own id. */
  lemma CopiedIsBooked(obj: Ref, kids: Forest, items: seq<string>, places: seq<Place>, sha1: (string, string) -> string,
                       uuid: string, entries: map<string, string>, newUuid: string, newEntries: map<string, string>, k: nat)
    requires WellNamed(Cons(obj, kids, Nil)) && AllNames(items) && places == PlacesFrom(obj, kids, PathOf(items))
    requires Ledger(places, sha1, uuid, entries, newUuid, newEntries) && k < |places|
    ensures var r := places[k].ref;
            && r.Path == places[k].path && IsBelow(r.Path, items, obj.Name)
            && r.Path in newEntries && newEntries[r.Path] == r.FileID
  {
    var f := Cons(obj, kids, Nil);
    assert places + [] == places;
    forall m | k < m < |places|
      ensures places[m].path != places[k].path
    {
      PlacesDiffer(f, items, k, m);
    }
    SettledAt(places, sha1, uuid, k);
    EntryOfPlace(sha1, uuid, entries, places, k);
    ObjectBelow(obj, kids, items, k);
  }

  /** A file id of a path that is not below the destination is left alone. */
  lemma OthersStayBooked(obj: Ref, kids: Forest, items: seq<string>, places: seq<Place>, sha1: (string, string) -> string,
                         uuid: string, entries: map<string, string>, newUuid: string, newEntries: map<string, string>,
                         path: string)
    requires WellNamed(Cons(obj, kids, Nil)) && AllNames(items) && places == PlacesFrom(obj, kids, PathOf(items))
    requires Ledger(places, sha1, uuid, entries, newUuid, newEntries) && !IsBelow(path, items, obj.Name)
    ensures (path in newEntries <==> path in entries) && (path in entries ==> newEntries[path] == entries[path])
  {
    forall k | 0 <= k < |places|
      ensures places[k].path != path
    {
      ObjectBelow(obj, kids, items, k);
    }
    EntryElsewhere(sha1, uuid, entries, places, path);
  }

  /** After a copy each directory that was created on the way hangs below the one before it, at the path of its fields,
      which is still mapped to its own id. */
  lemma CreatedStaysBooked(w: Walk, j: nat, obj: Ref, kids: Forest, places: seq<Place>, sha1: (string, string) -> string,
                           uuid: string, entries: map<string, string>, midUuid: string, mid: map<string, string>,
                           newUuid: string, newEntries: map<string, string>)
    requires Grown(w, obj) && AllNames(w.fields) && w.first < j <= w.i
    requires Booked(w, sha1, uuid, entries, midUuid, mid) && Labelled(w, sha1, uuid)
    requires WellNamed(Cons(obj, kids, Nil)) && places == PlacesFrom(obj, kids, PathOf(w.fields))
    requires Ledger(places, sha1, midUuid, mid, newUuid, newEntries)
    ensures var d := w.trail[j];
            && d !in w.nodes && d in w.trail[j - 1].Children
            && d.Type.DIRECTORY? && d.Name == w.fields[j - 1] && d.AllocationID == w.trail[w.first].AllocationID
            && d.Path == PathOf(w.fields[..j]) && d.Path in newEntries && newEntries[d.Path] == d.FileID
  {
    hide PathOf, Places, PlacesFrom, Ledger, MetaChain, UuidChain, WellNamed, Items, FirstNamed, Inserted;
    MetaChainAt(sha1, uuid, entries, w.fields, w.first, w.i, j);
    ItemsOfPath(w.fields[..j]);
    OthersStayBooked(obj, kids, w.fields, places, sha1, midUuid, mid, newUuid, newEntries, PathOf(w.fields[..j]));
    assert LeadsTo(w.trail[j - 1], w.fields[j - 1], w.trail[j]);
  }

  // ----- examples

  lemma LoneFile(obj: Ref, nodes: set<Ref>)
    requires obj.Children == [] && obj !in nodes
    ensures IsObject(obj, Nil, nodes)
  {
  }

  lemma SlashedName()
    ensures GetPathFields("/a/") == Some(["a"]) && PathOf(["a"]) == "/a"
  {
    TrailingSlash(["a"]);
    assert PathOf(["a"]) == "/a" && "/a" + "/" == "/a/";
  }

  lemma NothingObstructs(root: Ref, fields: seq<string>)
    requires root.Children == []
    ensures !Obstructed(Kids({root}), root, fields, 0)
  {
  }

  /** After a walk along one field the root leads to the directory of that name. */
  lemma OneField(w: Walk, sha1: (string, string) -> string, uuid: string, entries: map<string, string>, newUuid: string,
                 newEntries: map<string, string>)
    requires Progress(w, sha1, uuid, entries, newUuid, newEntries) && w.i == |w.fields| == 1
    ensures FirstNamed(w.root.Children, w.fields[0]) == Some(w.trail[1]) && w.trail[1].Path == PathOf(w.fields)
  {
    assert LeadsTo(w.trail[0], w.fields[0], w.trail[1]);
    TrailPath(w.root, w.after, w.trail, w.fields, 1, 1);
    assert w.fields[..1] == w.fields;
  }

  /** Copying to a place below a file panics. */
  method CopyBelowFile(sha1: (string, string) -> string, uuid: string) returns (r: Outcome)
    ensures r.Panic?
  {
    hide Progress, GetPathFields, Obstructed, FirstNamed, IsTree, IsObject, Booked, Grown, Ledger, Consistent, Bounded;
    var root, meta := FileInRoot();
    var obj := new Ref(FILE, "", "x", "/x", "");
    var change := new CopyFileChange(sha1, obj, "/a/b", uuid);
    ghost var nodes := {root} + Members(root);
    LoneFile(obj, nodes);
    FieldsOfTwoNames();
    FileObstructs(root, ["a", "b"]);
    ghost var w, places, mid, entries;
    r, w, places, mid, entries := change.ProcessChange(root, meta, nodes, Nil);
  }

  /** Copying to "/a/" in an empty tree creates the directory "/a" and then does not find it. */
  method CopyToTrailingSlash(sha1: (string, string) -> string, uuid: string) returns (r: Outcome, created: Option<Ref>)
    ensures r.FileNotFound? && created.Some? && created.value.Name == "a" && created.value.Path == "/a"
  {
    var root, meta := EmptyRoot();
    var obj := new Ref(FILE, "", "x", "/x", "");
    var change := new CopyFileChange(sha1, obj, "/a/", uuid);
    ghost var before := meta.entries;
    LoneFile(obj, {root});
    SlashedName();
    NothingObstructs(root, ["a"]);
    hide GetPathFields, Obstructed, IsObject, Grown, Ledger, Booked, Labelled, Progress, FirstNamed;
    ghost var w, places, mid, entries;
    r, w, places, mid, entries := change.ProcessChange(root, meta, {root}, Nil);
    OneField(w, sha1, uuid, before, change.Uuid, meta.entries);
    created := FindChild(root, "a");
  }
}
