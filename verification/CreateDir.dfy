/** zboxcore/allocationchange/createdir.go. */
module CreateDirs {
  import opened Options
  import opened Paths
  import opened RefTrees
  import opened TreeWalks

  datatype Outcome = Created | BadPath | InvalidRef

  class DirCreateChange {
    const sha1: (string, string) -> string
    const RemotePath: string
    var Uuid: string

    constructor (sha1: (string, string) -> string, remotePath: string, uuid: string)
      ensures this.sha1 == sha1 && RemotePath == remotePath && Uuid == uuid
    {
      this.sha1, RemotePath, Uuid := sha1, remotePath, uuid;
    }

    /** Creates what is missing of the remote path. A path that is not absolute and a file in the way are errors;
        then nothing changes. */
    method ProcessChange(root: Ref, meta: FileIDMeta, ghost nodes: set<Ref>) returns (r: Outcome, ghost w: Walk)
      requires IsTree(root, nodes)
      modifies this`Uuid, meta, nodes`Children
      ensures r.BadPath? <==> GetPathFields(RemotePath).None?
      ensures r.BadPath? <==> RemotePath != "" && RemotePath[0] != '/'
      ensures r.BadPath? ==> unchanged(this) && unchanged(meta) && unchanged(nodes) && w.after == nodes
      ensures !r.BadPath? ==> IsWalk(w, root, nodes, old(Kids(nodes)), GetPathFields(RemotePath).value)
      ensures !r.BadPath? ==> Progress(w, sha1, old(Uuid), old(meta.entries), Uuid, meta.entries)
      ensures !r.BadPath? ==> forall n :: n in w.after ==> n in nodes || fresh(n)
      ensures r.InvalidRef? <==> !r.BadPath? && Obstructed(old(Kids(nodes)), root, GetPathFields(RemotePath).value, 0)
      ensures r.InvalidRef? ==> w.first == w.i < |w.fields| && FileInTheWay(Last(w), w.fields[w.i])
      ensures r.InvalidRef? ==> Uuid == old(Uuid) && meta.entries == old(meta.entries) && w.after == nodes
      ensures r.InvalidRef? ==> forall n :: n in nodes ==> n.Children == old(n.Children)
      ensures r.Created? ==> w.i == |w.fields|
    {
      hide Progress, Obstructed, GetPathFields, FileInTheWay, IsTree;
      NoneIffRelative(RemotePath);
      var parsed := GetPathFields(RemotePath);
      if parsed.None? {
        w := Walk(root, nodes, Kids(nodes), [], nodes, [root], 0, 0);
        return BadPath, w;
      }
      FieldsAreNames(RemotePath);
      var dirRef, blocked;
      Uuid, dirRef, blocked, w := Enter(sha1, Uuid, root, parsed.value, meta, nodes);
      BlockedIffObstructed(w, sha1, old(Uuid), old(meta.entries), Uuid, meta.entries);
      r := if blocked then InvalidRef else Created;
      if blocked {
        NothingDone(w, sha1, old(Uuid), old(meta.entries), Uuid, meta.entries);
      }
    }
  }

  /** A walk that has created nothing has changed nothing. */
  lemma NothingDone(w: Walk, sha1: (string, string) -> string, uuid: string, entries: map<string, string>,
                    newUuid: string, newEntries: map<string, string>)
    requires Progress(w, sha1, uuid, entries, newUuid, newEntries) && w.first == w.i
    ensures w.after == w.nodes && newUuid == uuid && newEntries == entries
    ensures forall n :: n in w.nodes ==> n.Children == w.kids[n]
  {
  }

  /** A walk over a tree that has the whole path leaves everything as it is. */
  lemma LeftAsItWas(w: Walk, sha1: (string, string) -> string, uuid: string, entries: map<string, string>,
                    newUuid: string, newEntries: map<string, string>, trail: seq<Ref>)
    requires Progress(w, sha1, uuid, entries, newUuid, newEntries)
    requires w.i == |w.fields| || (w.first == w.i && FileInTheWay(Last(w), w.fields[w.i]))
    requires WasThere(w.kids, trail, w.fields, |w.fields|) && trail[0] == w.root
    ensures w.i == |w.fields| && w.after == w.nodes && Kids(w.after) == w.kids && newUuid == uuid && newEntries == entries
  {
    NothingMissing(w, trail);
  }

  /** Creating a directory a second time adds nothing: the nodes, their children and the file ids stay as the first
      creation left them, and the uuid of the second change is not used. */
  method CreateTwice(once: DirCreateChange, again: DirCreateChange, root: Ref, meta: FileIDMeta, ghost nodes: set<Ref>)
      returns (first: Outcome, second: Outcome, ghost after: set<Ref>, ghost kids: map<Ref, seq<Ref>>,
               ghost entries: map<string, string>)
    requires IsTree(root, nodes) && once != again && once.RemotePath == again.RemotePath
    modifies once, again, meta, nodes`Children
    ensures first.Created? ==> second.Created? && again.Uuid == old(again.Uuid)
    ensures first.Created? ==> IsTree(root, after) && Kids(after) == kids && meta.entries == entries
  {
    ghost var w;
    first, w := once.ProcessChange(root, meta, nodes);
    after, kids, entries := w.after, Kids(w.after), meta.entries;
    second := first;
    if first.Created? {
      AllThere(w, once.sha1, old(once.Uuid), old(meta.entries), once.Uuid, meta.entries);
      ghost var v;
      second, v := again.ProcessChange(root, meta, w.after);
      LeftAsItWas(v, again.sha1, old(again.Uuid), entries, again.Uuid, meta.entries, w.trail);
    }
  }

  /** For example, no directory can be created below a file. */
  method FileIsNoDirectory(sha1: (string, string) -> string, uuid: string) returns (r: Outcome)
    ensures r.InvalidRef?
  {
    hide Progress, GetPathFields, Obstructed, FirstNamed, IsTree, Consistent, FileInTheWay, Bounded, Inserted;
    var root, meta := FileInRoot();
    var change := new DirCreateChange(sha1, "/a/b", uuid);
    FieldsOfTwoNames();
    FileObstructs(root, ["a", "b"]);
    ghost var w;
    r, w := change.ProcessChange(root, meta, {root} + Members(root));
  }
}
