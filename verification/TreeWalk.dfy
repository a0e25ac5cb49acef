/** The walk from the root along the fields of a path that zboxcore/allocationchange/createdir.go and copyobject.go
    share: directories that are there are entered, the others are created. */
module TreeWalks {
  import opened Options
  import opened Paths
  import opened RefTrees

  /** The uuid after the names fields[first], ..., fields[last - 1]: each new one is derived from the one before it. */
  function UuidChain(sha1: (string, string) -> string, uuid: string, fields: seq<string>, first: nat, last: nat): string
    requires first <= last <= |fields|
    decreases last
  {
    if first == last then uuid else sha1(UuidChain(sha1, uuid, fields, first, last - 1), fields[last - 1])
  }

  /** The file ids after the directories fields[..first + 1], ..., fields[..last] were created. */
  function MetaChain(sha1: (string, string) -> string, uuid: string, entries: map<string, string>, fields: seq<string>,
                     first: nat, last: nat): map<string, string>
    requires first <= last <= |fields|
    decreases last
  {
    if first == last then entries
    else
      MetaChain(sha1, uuid, entries, fields, first, last - 1)
        [PathOf(fields[..last]) := UuidChain(sha1, uuid, fields, first, last)]
  }

  /** Fields as GetPathFields returns them. */
  ghost predicate AreFields(fields: seq<string>) {
    AllNames(fields) || fields == [""]
  }

  lemma FieldPath(fields: seq<string>, i: nat)
    requires AreFields(fields) && i < |fields|
    ensures Join(PathOf(fields[..i]), fields[i]) == PathOf(fields[..i + 1])
  {
    assert fields[..i + 1] == fields[..i] + [fields[i]];
    if AllNames(fields) {
      JoinAppends(fields[..i], fields[i]);
    }
  }

  /** A new empty directory below dirRef, entered in the file ids. */
  method AddDirectory(dirRef: Ref, name: string, path: string, fileID: string, meta: FileIDMeta, ghost nodes: set<Ref>)
      returns (newRef: Ref)
    requires dirRef in nodes && Consistent(nodes)
    requires FirstNamed(dirRef.Children, name).None? && path == Join(dirRef.Path, name)
    modifies dirRef`Children, meta
    ensures fresh(newRef) && Consistent(nodes + {newRef})
    ensures newRef.Type.DIRECTORY? && newRef.Name == name && newRef.Path == path && newRef.FileID == fileID
    ensures newRef.AllocationID == dirRef.AllocationID && newRef.Children == []
    ensures Inserted(old(dirRef.Children), dirRef.Children, newRef)
    ensures meta.entries == old(meta.entries)[path := fileID]
  {
    newRef := new Ref(DIRECTORY, dirRef.AllocationID, name, path, fileID);
    meta.entries := meta.entries[path := fileID];
    dirRef.AddChild(newRef);
    InsertedMembers(old(dirRef.Children), dirRef.Children, newRef);
  }

  /** The walk so far: `trail` follows the first i fields. */
  ghost predicate Walked(root: Ref, nodes: set<Ref>, trail: seq<Ref>, fields: seq<string>, i: nat)
    requires i <= |fields|
    reads nodes
  {
    && IsTree(root, nodes) && IsTrail(trail, fields, nodes) && |trail| == i + 1
    && trail[0] == root && trail[i].Path == PathOf(fields[..i]) && trail[i].Type.DIRECTORY?
  }

  lemma WalkedFound(root: Ref, nodes: set<Ref>, trail: seq<Ref>, fields: seq<string>, i: nat, child: Ref)
    requires i < |fields| && AreFields(fields) && Walked(root, nodes, trail, fields, i)
    requires FirstNamed(trail[i].Children, fields[i]) == Some(child) && child.Type.DIRECTORY?
    ensures Walked(root, nodes, trail + [child], fields, i + 1)
  {
    FieldPath(fields, i);
  }

  /** The child list of every node. */
  ghost function Kids(nodes: set<Ref>): (kids: map<Ref, seq<Ref>>)
    reads nodes
  {
    map n | n in nodes :: n.Children
  }

  /** The first names led along the trail already when the child lists were `kids`. */
  ghost predicate WasThere(kids: map<Ref, seq<Ref>>, trail: seq<Ref>, fields: seq<string>, first: nat) {
    && first <= |fields| && first < |trail| && (forall j :: 0 <= j <= first ==> trail[j] in kids)
    && forall j {:trigger fields[j]} :: 0 <= j < first ==>
         FirstNamed(kids[trail[j]], fields[j]) == Some(trail[j + 1]) && trail[j + 1].Type.DIRECTORY?
  }

  /** A new directory was put below the last node of a trail: each lookup along the trail gives what it gave when the
      child lists were `kids`, and the new name leads to the new directory. */
  lemma TrailNew(trail: seq<Ref>, kids: map<Ref, seq<Ref>>, fields: seq<string>, i: nat, newRef: Ref, nodes: set<Ref>)
    requires i < |fields| && |trail| == i + 1 && WasThere(kids, trail, fields, i) && kids.Keys <= nodes
    requires newRef in nodes && newRef.Name == fields[i] && newRef.Type.DIRECTORY?
    requires FirstNamed(kids[trail[i]], fields[i]).None? && Inserted(kids[trail[i]], trail[i].Children, newRef)
    requires forall n :: n in kids && n != trail[i] ==> n.Children == kids[n]
    ensures IsTrail(trail + [newRef], fields, nodes)
  {
    var longer := trail + [newRef];
    forall j {:trigger fields[j]} | 0 <= j <= i
      ensures LeadsTo(longer[j], fields[j], longer[j + 1])
    {
      if trail[j] == trail[i] {
        InsertedLookup(kids[trail[i]], trail[i].Children, newRef, fields[j]);
      }
    }
  }

  /** One turn of the loop for a name that is not there. */
  method CreateNext(dirRef: Ref, fields: seq<string>, i: nat, fileID: string, meta: FileIDMeta, ghost root: Ref,
                    ghost nodes: set<Ref>, ghost trail: seq<Ref>) returns (newRef: Ref)
    requires i < |fields| && AreFields(fields) && Walked(root, nodes, trail, fields, i) && dirRef == trail[i]
    requires FirstNamed(dirRef.Children, fields[i]).None?
    modifies meta, dirRef`Children
    ensures fresh(newRef) && newRef.Children == [] && newRef.FileID == fileID && newRef.AllocationID == dirRef.AllocationID
    ensures Walked(root, nodes + {newRef}, trail + [newRef], fields, i + 1)
    ensures Inserted(old(dirRef.Children), dirRef.Children, newRef)
    ensures meta.entries == old(meta.entries)[PathOf(fields[..i + 1]) := fileID]
  {
    ghost var kids := Kids(nodes);
    FieldPath(fields, i);
    newRef := AddDirectory(dirRef, fields[i], PathOf(fields[..i + 1]), fileID, meta, nodes);
    TrailNew(trail, kids, fields, i, newRef, nodes + {newRef});
  }

  /** How far the loop over the fields has come: `trail` follows the first i of them, of which the first `first` were
      there already. `nodes` with the child lists `kids` is the tree as it was, `after` is the tree now: one old child
      list has gained the first new directory. */
  ghost predicate ReachedBy(root: Ref, nodes: set<Ref>, kids: map<Ref, seq<Ref>>, after: set<Ref>, trail: seq<Ref>,
                          fields: seq<string>, first: nat, i: nat)
    requires first <= i <= |fields| && kids.Keys == nodes
    reads after
  {
    && nodes <= after && (forall n :: n in after ==> n in nodes || n in trail)
    && Walked(root, after, trail, fields, i)
    && (forall n :: n in nodes ==> n.Children == kids[n] || (first < i && n == trail[first]))
    && WasThere(kids, trail, fields, first) && (first < i ==> FirstNamed(kids[trail[first]], fields[first]).None?)
    && (if first == i then after == nodes
        else trail[first] in nodes && Inserted(kids[trail[first]], trail[first].Children, trail[first + 1]))
    && NewOnes(after, nodes, trail, first, i)
  }

  /** The created directories are not nodes of the old tree, and each has the next one as its only child. */
  ghost predicate NewOnes(after: set<Ref>, nodes: set<Ref>, trail: seq<Ref>, first: nat, i: nat)
    reads after
  {
    && i < |trail|
    && (forall j :: first < j <= i ==> trail[j] in after && trail[j] !in nodes)
    && (forall j {:trigger trail[j].Children} :: first < j < i ==> trail[j].Children == [trail[j + 1]])
    && (first < i ==> trail[i].Children == [])
  }

  /** One turn that creates. */
  method CreateTurn(dirRef: Ref, fields: seq<string>, i: nat, fileID: string, meta: FileIDMeta, ghost root: Ref,
                    ghost nodes: set<Ref>, ghost kids: map<Ref, seq<Ref>>, ghost after: set<Ref>, ghost trail: seq<Ref>,
                    ghost first: nat) returns (newRef: Ref)
    requires first <= i < |fields| && AreFields(fields) && kids.Keys == nodes
    requires ReachedBy(root, nodes, kids, after, trail, fields, first, i) && dirRef == trail[i]
    requires FirstNamed(dirRef.Children, fields[i]).None?
    modifies meta, dirRef`Children
    ensures fresh(newRef) && newRef !in after && newRef.FileID == fileID && newRef.AllocationID == dirRef.AllocationID
    ensures ReachedBy(root, nodes, kids, after + {newRef}, trail + [newRef], fields, first, i + 1)
    ensures meta.entries == old(meta.entries)[PathOf(fields[..i + 1]) := fileID]
  {
    hide WasThere, Inserted, FirstNamed, Join, PathOf, Less, AreFields;
    assert dirRef in after && (first == i ==> dirRef in nodes && kids[dirRef] == dirRef.Children);
    assert first < i ==> dirRef.Children == [] && dirRef !in nodes;
    newRef := CreateNext(dirRef, fields, i, fileID, meta, root, after, trail);
    WasThereLonger(kids, trail, fields, first, newRef);
    if first < i {
      InsertedAlone(dirRef.Children, newRef);
    }
    ghost var longer := trail + [newRef];
    assert longer[first] == trail[first];
    forall j {:trigger longer[j].Children} | first < j < i + 1
      ensures longer[j].Children == [longer[j + 1]]
    {
      assert longer[j] == trail[j];
      if j < i {
        assert old(trail[j].Children) == [trail[j + 1]];
      }
    }
  }

  lemma WasThereLonger(kids: map<Ref, seq<Ref>>, trail: seq<Ref>, fields: seq<string>, first: nat, newRef: Ref)
    requires WasThere(kids, trail, fields, first)
    ensures WasThere(kids, trail + [newRef], fields, first)
  {
    var longer := trail + [newRef];
    forall j | 0 <= j <= first
      ensures longer[j] in kids
    {
      assert longer[j] == trail[j];
    }
    forall j {:trigger fields[j]} | 0 <= j < first
      ensures FirstNamed(kids[longer[j]], fields[j]) == Some(longer[j + 1]) && longer[j + 1].Type.DIRECTORY?
    {
      assert longer[j] == trail[j] && longer[j + 1] == trail[j + 1];
    }
  }

  lemma WasThereBefore(kids: map<Ref, seq<Ref>>, trail: seq<Ref>, fields: seq<string>, k: nat, m: nat)
    requires k <= m && WasThere(kids, trail, fields, m)
    ensures WasThere(kids, trail, fields, k)
  {
    forall j {:trigger fields[j]} | 0 <= j < k
      ensures FirstNamed(kids[trail[j]], fields[j]) == Some(trail[j + 1]) && trail[j + 1].Type.DIRECTORY?
    {
    }
  }

  /** The name at which the loop over the fields stops: a file has it. */
  ghost predicate FileInTheWay(dir: Ref, name: string)
    reads dir
  {
    var found := FirstNamed(dir.Children, name);
    found.Some? && found.value.Type.FILE?
  }

  /** A name that leads somewhere did so from the start, as nothing has been created yet. */
  lemma ChildWasThere(root: Ref, nodes: set<Ref>, kids: map<Ref, seq<Ref>>, after: set<Ref>, trail: seq<Ref>,
                      fields: seq<string>, first: nat, i: nat, child: Ref)
    requires first <= i < |fields| && AreFields(fields) && kids.Keys == nodes
    requires ReachedBy(root, nodes, kids, after, trail, fields, first, i)
    requires FirstNamed(trail[i].Children, fields[i]) == Some(child)
    ensures first == i && child in nodes && (child.Type.FILE? ==> FileInTheWay(trail[i], fields[i]))
    ensures child.Type.DIRECTORY? ==> ReachedBy(root, nodes, kids, after, trail + [child], fields, i + 1, i + 1)
  {
    hide PathOf, Inserted, WasThere, Consistent;
    ChildIsListed(trail[i].Children, fields[i], child);
    ChildIsNode(root, after, trail, fields, i, child);
    if child.Type.DIRECTORY? {
      WalkedFound(root, after, trail, fields, i, child);
      WasThereOneMore(kids, trail, fields, i, child);
      assert (trail + [child])[i] == trail[i];
    }
  }

  lemma ChildIsListed(children: seq<Ref>, name: string, child: Ref)
    requires FirstNamed(children, name) == Some(child)
    ensures children != [] && child in children
  {
  }

  lemma ChildIsNode(root: Ref, after: set<Ref>, trail: seq<Ref>, fields: seq<string>, i: nat, child: Ref)
    requires i < |fields| && Walked(root, after, trail, fields, i) && child in trail[i].Children
    ensures child in after
  {
  }

  lemma WasThereOneMore(kids: map<Ref, seq<Ref>>, trail: seq<Ref>, fields: seq<string>, i: nat, child: Ref)
    requires WasThere(kids, trail, fields, i) && |trail| == i + 1 && i < |fields| && child in kids
    requires FirstNamed(kids[trail[i]], fields[i]) == Some(child) && child.Type.DIRECTORY?
    ensures WasThere(kids, trail + [child], fields, i + 1)
  {
    var longer := trail + [child];
    assert longer[..i + 1] == trail && longer[i + 1] == child;
    forall j | 0 <= j <= i + 1
      ensures longer[j] in kids
    {
      assert longer[j] == if j <= i then trail[j] else child;
    }
    forall j {:trigger fields[j]} | 0 <= j < i + 1
      ensures FirstNamed(kids[longer[j]], fields[j]) == Some(longer[j + 1]) && longer[j + 1].Type.DIRECTORY?
    {
      assert longer[j] == trail[j] && longer[j + 1] == if j < i then trail[j + 1] else child;
    }
  }

  /** One turn of the loop: enters the directory with the next name or creates it. */
  method Turn(sha1: (string, string) -> string, uuid: string, dirRef: Ref, fields: seq<string>, i: nat, meta: FileIDMeta,
              ghost root: Ref, ghost nodes: set<Ref>, ghost kids: map<Ref, seq<Ref>>, ghost after: set<Ref>,
              ghost trail: seq<Ref>, ghost first: nat)
      returns (newUuid: string, next: Option<Ref>, ghost found: bool)
    requires first <= i < |fields| && AreFields(fields) && kids.Keys == nodes
    requires ReachedBy(root, nodes, kids, after, trail, fields, first, i) && dirRef == trail[i]
    modifies meta, dirRef`Children
    ensures next.None? ==> FileInTheWay(dirRef, fields[i]) && ReachedBy(root, nodes, kids, after, trail, fields, first, i)
    ensures next.Some? && found ==> next.value in nodes
    ensures next.None? ==> first == i && unchanged(dirRef) && unchanged(meta) && newUuid == uuid
    ensures next.Some? && found ==> first == i && unchanged(dirRef) && unchanged(meta) && newUuid == uuid
    ensures next.Some? && found ==> ReachedBy(root, nodes, kids, after, trail + [next.value], fields, i + 1, i + 1)
    ensures next.Some? && !found ==> fresh(next.value) && newUuid == sha1(uuid, fields[i]) && next.value.FileID == newUuid
    ensures next.Some? && !found ==> next.value.AllocationID == dirRef.AllocationID
    ensures next.Some? && !found ==>
      ReachedBy(root, nodes, kids, after + {next.value}, trail + [next.value], fields, first, i + 1)
    ensures next.Some? && !found ==> meta.entries == old(meta.entries)[PathOf(fields[..i + 1]) := newUuid]
  {
    hide ReachedBy, FirstNamed, PathOf, AreFields;
    newUuid := uuid;
    var child := FindChild(dirRef, fields[i]);
    if child.Some? {
      ChildWasThere(root, nodes, kids, after, trail, fields, first, i, child.value);
    }
    match child {
      case None =>
        newUuid := sha1(uuid, fields[i]);
        var newRef := CreateTurn(dirRef, fields, i, newUuid, meta, root, nodes, kids, after, trail, first);
        next, found := Some(newRef), false;
      case Some(ref) =>
        found := true;
        if ref.Type.FILE? {
          next := None;
        } else {
          next := Some(ref);
        }
    }
  }

  /** A run of the loop over the fields. `nodes` with the child lists `kids` is the tree as it was; `trail` follows the
      first i fields, of which the first `first` were there already; `after` are the nodes now. */
  datatype Walk = Walk(root: Ref, nodes: set<Ref>, kids: map<Ref, seq<Ref>>, fields: seq<string>,
                       after: set<Ref>, trail: seq<Ref>, first: nat, i: nat)

  ghost predicate Bounded(w: Walk) {
    w.first <= w.i <= |w.fields| && |w.trail| == w.i + 1 && w.kids.Keys == w.nodes && AreFields(w.fields)
  }

  ghost predicate IsWalk(w: Walk, root: Ref, nodes: set<Ref>, kids: map<Ref, seq<Ref>>, fields: seq<string>) {
    Bounded(w) && w.root == root && w.nodes == nodes && w.kids == kids && w.fields == fields
  }

  ghost function Last(w: Walk): Ref
    requires Bounded(w)
  {
    w.trail[w.i]
  }

  ghost predicate Reached(w: Walk)
    requires Bounded(w)
    reads w.after
  {
    ReachedBy(w.root, w.nodes, w.kids, w.after, w.trail, w.fields, w.first, w.i)
  }

  /** The uuid and the file ids that go with a walk. */
  ghost predicate Booked(w: Walk, sha1: (string, string) -> string, uuid: string, entries: map<string, string>,
                         newUuid: string, newEntries: map<string, string>)
    requires Bounded(w)
  {
    && newUuid == UuidChain(sha1, uuid, w.fields, w.first, w.i)
    && newEntries == MetaChain(sha1, uuid, entries, w.fields, w.first, w.i)
  }

  /** What the directories created on a walk are labelled with. */
  ghost predicate Labelled(w: Walk, sha1: (string, string) -> string, uuid: string)
    requires Bounded(w)
    reads w.trail
  {
    forall j :: w.first < j <= w.i ==>
      && w.trail[j].FileID == UuidChain(sha1, uuid, w.fields, w.first, j)
      && w.trail[j].AllocationID == w.trail[w.first].AllocationID
  }

  /** All of it. */
  ghost predicate Progress(w: Walk, sha1: (string, string) -> string, uuid: string, entries: map<string, string>,
                           newUuid: string, newEntries: map<string, string>)
    reads w.after, w.trail
  {
    && Bounded(w) && Reached(w) && Booked(w, sha1, uuid, entries, newUuid, newEntries) && Labelled(w, sha1, uuid)
  }

  lemma ProgressStart(w: Walk, sha1: (string, string) -> string, uuid: string, entries: map<string, string>)
    requires IsTree(w.root, w.nodes) && AreFields(w.fields)
    requires w == Walk(w.root, w.nodes, Kids(w.nodes), w.fields, w.nodes, [w.root], 0, 0)
    ensures Progress(w, sha1, uuid, entries, uuid, entries)
  {
  }

  /** The same turn, with what a walk says about it. */
  method Step(sha1: (string, string) -> string, uuid: string, dirRef: Ref, fields: seq<string>, i: nat, meta: FileIDMeta,
              ghost w: Walk, ghost uuid0: string, ghost entries0: map<string, string>)
      returns (newUuid: string, next: Option<Ref>, ghost further: Walk)
    requires Progress(w, sha1, uuid0, entries0, uuid, meta.entries)
    requires i == w.i < |w.fields| && fields == w.fields && dirRef == Last(w)
    modifies meta, dirRef`Children
    ensures IsWalk(further, w.root, w.nodes, w.kids, w.fields)
    ensures next.None? ==> FileInTheWay(dirRef, fields[i]) && further == w && w.first == w.i
    ensures next.Some? ==> further.i == w.i + 1 && next.value == Last(further)
    ensures next.Some? ==> next.value in w.nodes || fresh(next.value)
    ensures Progress(further, sha1, uuid0, entries0, newUuid, meta.entries)
    ensures forall n :: n in further.after ==> n in w.after || fresh(n)
  {
    hide ReachedBy, FileInTheWay, AreFields;
    ghost var found;
    newUuid, next, found := Turn(sha1, uuid, dirRef, fields, i, meta, w.root, w.nodes, w.kids, w.after, w.trail, w.first);
    further := w;
    if next.Some? {
      further := Walk(w.root, w.nodes, w.kids, fields, if found then w.after else w.after + {next.value},
                      w.trail + [next.value], if found then i + 1 else w.first, i + 1);
    }
  }

  /** The loop over the fields: enters the directories that are there and creates the others. A file in the way blocks
      it before anything is created. */
  method Enter(sha1: (string, string) -> string, uuid: string, root: Ref, fields: seq<string>, meta: FileIDMeta,
               ghost nodes: set<Ref>)
      returns (newUuid: string, dirRef: Ref, blocked: bool, ghost w: Walk)
    requires AreFields(fields) && IsTree(root, nodes)
    modifies meta, nodes`Children
    ensures IsWalk(w, root, nodes, old(Kids(nodes)), fields) && forall n :: n in w.after ==> n in nodes || fresh(n)
    ensures Progress(w, sha1, uuid, old(meta.entries), newUuid, meta.entries) && dirRef == Last(w)
    ensures if blocked then w.first == w.i < |fields| && FileInTheWay(dirRef, fields[w.i]) else w.i == |fields|
  {
    newUuid, dirRef, w := uuid, root, Walk(root, nodes, Kids(nodes), fields, nodes, [root], 0, 0);
    ghost var kids, entries := w.kids, meta.entries;
    ProgressStart(w, sha1, uuid, entries);
    hide Progress, FileInTheWay, AreFields, IsTree, Kids, Consistent;
    var i := 0;
    while i < |fields|
      invariant IsWalk(w, root, nodes, kids, fields) && i == w.i
      invariant forall n :: n in w.after ==> n in nodes || fresh(n)
      invariant Progress(w, sha1, uuid, entries, newUuid, meta.entries)
      invariant (dirRef in nodes || fresh(dirRef)) && dirRef == Last(w)
      decreases |fields| - i
    {
      var next;
      newUuid, next, w := Step(sha1, newUuid, dirRef, fields, i, meta, w, uuid, entries);
      match next {
        case None =>
          blocked := true;
          return;
        case Some(ref) =>
          dirRef, i := ref, i + 1;
      }
    }
    blocked := false;
  }

  // ----- what a walk has done

  /** Along a trail the paths are those of the fields. */
  lemma {:induction false} TrailPath(root: Ref, nodes: set<Ref>, trail: seq<Ref>, fields: seq<string>, i: nat, j: nat)
    requires j <= i <= |fields| && AreFields(fields) && Walked(root, nodes, trail, fields, i)
    ensures trail[j].Path == PathOf(fields[..j])
  {
    if j == 0 {
      assert fields[..0] == [];
    } else {
      TrailPath(root, nodes, trail, fields, i, j - 1);
      FieldPath(fields, j - 1);
      assert LeadsTo(trail[j - 1], fields[j - 1], trail[j]);
    }
  }

  lemma {:induction false} MetaChainAt(sha1: (string, string) -> string, uuid: string, entries: map<string, string>,
                                       fields: seq<string>, first: nat, last: nat, j: nat)
    requires first < j <= last <= |fields| && AreFields(fields)
    ensures var ids := MetaChain(sha1, uuid, entries, fields, first, last);
            PathOf(fields[..j]) in ids && ids[PathOf(fields[..j])] == UuidChain(sha1, uuid, fields, first, j)
    decreases last
  {
    if j < last {
      MetaChainAt(sha1, uuid, entries, fields, first, last - 1, j);
      if PathOf(fields[..j]) == PathOf(fields[..last]) {
        PathOfInjective(fields[..j], fields[..last]);
      }
    }
  }

  lemma {:induction false} MetaChainElsewhere(sha1: (string, string) -> string, uuid: string, entries: map<string, string>,
                                              fields: seq<string>, first: nat, last: nat, path: string)
    requires first <= last <= |fields|
    requires forall j :: first < j <= last ==> path != PathOf(fields[..j])
    ensures var ids := MetaChain(sha1, uuid, entries, fields, first, last);
            (path in ids <==> path in entries) && (path in entries ==> ids[path] == entries[path])
    decreases last
  {
    if first < last {
      MetaChainElsewhere(sha1, uuid, entries, fields, first, last - 1, path);
    }
  }

  /** A created directory stands at the path of its fields, which the file ids map to its own id. */
  lemma CreatedIsBooked(w: Walk, sha1: (string, string) -> string, uuid: string, entries: map<string, string>,
                        newUuid: string, newEntries: map<string, string>, j: nat)
    requires Progress(w, sha1, uuid, entries, newUuid, newEntries) && w.first < j <= w.i
    ensures var d := w.trail[j];
            && d.Type.DIRECTORY? && d.Name == w.fields[j - 1] && d.AllocationID == w.trail[w.first].AllocationID
            && d.Path == PathOf(w.fields[..j]) && d.Path in newEntries && newEntries[d.Path] == d.FileID
  {
    TrailPath(w.root, w.after, w.trail, w.fields, w.i, j);
    MetaChainAt(sha1, uuid, entries, w.fields, w.first, w.i, j);
    assert LeadsTo(w.trail[j - 1], w.fields[j - 1], w.trail[j]);
  }

  /** A file id that is not that of a created directory is as it was. */
  lemma OthersStayBooked(w: Walk, sha1: (string, string) -> string, uuid: string, entries: map<string, string>,
                         newUuid: string, newEntries: map<string, string>, path: string)
    requires Progress(w, sha1, uuid, entries, newUuid, newEntries)
    requires forall j :: w.first < j <= w.i ==> path != w.trail[j].Path
    ensures (path in newEntries <==> path in entries) && (path in entries ==> newEntries[path] == entries[path])
  {
    forall j | w.first < j <= w.i
      ensures path != PathOf(w.fields[..j])
    {
      TrailPath(w.root, w.after, w.trail, w.fields, w.i, j);
    }
    MetaChainElsewhere(sha1, uuid, entries, w.fields, w.first, w.i, path);
  }

  /** Lookups have one answer: two trails from the same root agree as far as both go. */
  lemma {:induction false} SameWay(kids: map<Ref, seq<Ref>>, a: seq<Ref>, b: seq<Ref>, fields: seq<string>,
                                   m: nat, n: nat, j: nat)
    requires WasThere(kids, a, fields, m) && WasThere(kids, b, fields, n) && a[0] == b[0] && j <= m && j <= n
    ensures a[j] == b[j]
  {
    if j > 0 {
      SameWay(kids, a, b, fields, m, n, j - 1);
      assert fields[j - 1] == fields[j - 1];
    }
  }

  /** A walk creates nothing and is not blocked when its whole path is there. */
  lemma NothingMissing(w: Walk, trail: seq<Ref>)
    requires Bounded(w) && w.trail[0] == w.root && WasThere(w.kids, w.trail, w.fields, w.first)
    requires WasThere(w.kids, trail, w.fields, |w.fields|) && trail[0] == w.root
    ensures w.first < w.i ==> FirstNamed(w.kids[w.trail[w.first]], w.fields[w.first]).Some?
    ensures w.first < |w.fields| ==> FirstNamed(w.kids[w.trail[w.first]], w.fields[w.first]) == Some(trail[w.first + 1])
    ensures w.first < |w.fields| ==> trail[w.first + 1].Type.DIRECTORY?
  {
    SameWay(w.kids, w.trail, trail, w.fields, w.first, |w.fields|, w.first);
  }

  /** The whole path is there after a walk that was not blocked. */
  lemma AllThere(w: Walk, sha1: (string, string) -> string, uuid: string, entries: map<string, string>, newUuid: string,
                 newEntries: map<string, string>)
    requires Progress(w, sha1, uuid, entries, newUuid, newEntries) && w.i == |w.fields|
    ensures IsTree(w.root, w.after) && w.trail[0] == w.root && WasThere(Kids(w.after), w.trail, w.fields, |w.fields|)
  {
    var kids := Kids(w.after);
    forall j {:trigger w.fields[j]} | 0 <= j < w.i
      ensures FirstNamed(kids[w.trail[j]], w.fields[j]) == Some(w.trail[j + 1]) && w.trail[j + 1].Type.DIRECTORY?
    {
      assert LeadsTo(w.trail[j], w.fields[j], w.trail[j + 1]);
    }
  }

  /** From `dir` on, the names from fields[k] lead through directories to a file. */
  ghost predicate Obstructed(kids: map<Ref, seq<Ref>>, dir: Ref, fields: seq<string>, k: nat)
    decreases |fields| - k
  {
    && k < |fields| && dir in kids
    && match FirstNamed(kids[dir], fields[k])
       case None => false
       case Some(child) => child.Type.FILE? || Obstructed(kids, child, fields, k + 1)
  }

  lemma {:induction false} ObstructedAlong(kids: map<Ref, seq<Ref>>, trail: seq<Ref>, fields: seq<string>, m: nat)
    requires WasThere(kids, trail, fields, m)
    ensures Obstructed(kids, trail[0], fields, 0) <==> Obstructed(kids, trail[m], fields, m)
  {
    if m > 0 {
      WasThereBefore(kids, trail, fields, m - 1, m);
      ObstructedAlong(kids, trail, fields, m - 1);
      assert FirstNamed(kids[trail[m - 1]], fields[m - 1]) == Some(trail[m]);
    }
  }

  /** The field after the first m names a file in the directory to which the trail leads. */
  ghost predicate LeadsToFile(kids: map<Ref, seq<Ref>>, trail: seq<Ref>, fields: seq<string>, m: nat) {
    && m < |fields| && WasThere(kids, trail, fields, m)
    && FirstNamed(kids[trail[m]], fields[m]).Some? && FirstNamed(kids[trail[m]], fields[m]).value.Type.FILE?
  }

  /** A trail of directories to a file along the fields obstructs them ... */
  lemma FileOnTrail(kids: map<Ref, seq<Ref>>, trail: seq<Ref>, fields: seq<string>, m: nat)
    requires LeadsToFile(kids, trail, fields, m)
    ensures Obstructed(kids, trail[0], fields, 0)
  {
    ObstructedAlong(kids, trail, fields, m);
  }

  /** ... and nothing else does. */
  lemma {:induction false} TrailToFile(kids: map<Ref, seq<Ref>>, trail: seq<Ref>, fields: seq<string>, k: nat)
      returns (longer: seq<Ref>, m: nat)
    requires WasThere(kids, trail, fields, k) && |trail| == k + 1 && Obstructed(kids, trail[k], fields, k)
    ensures trail <= longer && LeadsToFile(kids, longer, fields, m)
    decreases |fields| - k
  {
    var child := FirstNamed(kids[trail[k]], fields[k]).value;
    if child.Type.FILE? {
      longer, m := trail, k;
    } else {
      var next := trail + [child];
      WasThereLonger(kids, trail, fields, k, child);
      assert next[k] == trail[k] && next[k + 1] == child;
      longer, m := TrailToFile(kids, next, fields, k + 1);
    }
  }

  /** A file in the root is in the way of every path that starts with its name. */
  lemma FileObstructs(root: Ref, fields: seq<string>)
    requires |root.Children| == 1 && root.Children[0].Type.FILE? && fields != [] && root.Children[0].Name == fields[0]
    ensures Obstructed(Kids({root} + Members(root)), root, fields, 0)
  {
    assert FirstNamed(root.Children[..0], fields[0]).None?;
  }

  lemma FieldsOfTwoNames()
    ensures GetPathFields("/a/b") == Some(["a", "b"])
  {
    var fields := ["a", "b"];
    assert JoinItems(fields[..1]) == "a";
    assert PathOf(fields) == "/a/b";
    FieldsOfCleanPath(fields);
  }

  /** A walk is blocked exactly when there was a file on the way. */
  lemma BlockedIffObstructed(w: Walk, sha1: (string, string) -> string, uuid: string, entries: map<string, string>,
                             newUuid: string, newEntries: map<string, string>)
    requires Progress(w, sha1, uuid, entries, newUuid, newEntries)
    requires w.i == |w.fields| || (w.first == w.i && FileInTheWay(Last(w), w.fields[w.i]))
    ensures w.i < |w.fields| <==> Obstructed(w.kids, w.root, w.fields, 0)
  {
    ObstructedAlong(w.kids, w.trail, w.fields, w.first);
  }
}
