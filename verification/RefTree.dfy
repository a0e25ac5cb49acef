/** The directory tree of zboxcore/fileref and what zboxcore/allocationchange does to it in place. */
module RefTrees {
  import opened Options
  import opened Paths

  datatype Kind = FILE | DIRECTORY

  /** `child` was put somewhere between the other children. */
  ghost predicate Inserted(before: seq<Ref>, after: seq<Ref>, child: Ref) {
    && |after| == |before| + 1
    && exists k :: 0 <= k <= |before| && InsertedAt(before, after, child, k)
  }

  ghost predicate InsertedAt(before: seq<Ref>, after: seq<Ref>, child: Ref, k: nat)
    requires k <= |before| && |after| == |before| + 1
  {
    && after[k] == child
    && (forall j :: 0 <= j < k ==> after[j] == before[j])
    && (forall j :: k < j < |after| ==> after[j] == before[j - 1])
  }

  /** fileref.Ref; a FILE stands for the fileref.FileRef that embeds it. Creating and copying never change what is
      declared const here. */
  class Ref {
    const Type: Kind
    const AllocationID: string
    const Name: string
    var Path: string
    var FileID: string
    var Children: seq<Ref>

    constructor (kind: Kind, allocationID: string, name: string, path: string, fileID: string)
      ensures Type == kind && AllocationID == allocationID && Name == name && Path == path && FileID == fileID
      ensures Children == []
    {
      Type, AllocationID, Name, Path, FileID := kind, allocationID, name, path, fileID;
      Children := [];
    }

    /** Inserts before the first child with a greater path, or at the end. */
    method AddChild(child: Ref)
      modifies this`Children
      ensures Inserted(old(Children), Children, child)
      ensures exists k :: 0 <= k <= |old(Children)| && IsFirstGreater(old(Children), child, k) &&
                          Children == old(Children)[..k] + [child] + old(Children)[k..]
    {
      var index := 0;
      while index < |Children| && !Less(child.Path, Children[index].Path)
        invariant 0 <= index <= |Children|
        invariant forall j :: 0 <= j < index ==> !Less(child.Path, Children[j].Path)
      {
        index := index + 1;
      }
      assert IsFirstGreater(Children, child, index);
      Children := Children[..index] + [child] + Children[index..];
      assert InsertedAt(old(Children), Children, child, index);
    }
  }

  /** strings.Compare(a, b) == -1. */
  predicate Less(a: string, b: string) {
    b != "" && (a == "" || a[0] < b[0] || (a[0] == b[0] && Less(a[1..], b[1..])))
  }

  /** A path comes before everything that it starts. */
  lemma {:induction false} PrefixIsLess(a: string, b: string)
    ensures Less(a, a + b) <==> b != ""
    ensures !Less(a + b, a)
  {
    if a == "" {
      assert a + b == b;
    } else {
      assert (a + b)[1..] == a[1..] + b;
      PrefixIsLess(a[1..], b);
    }
  }

  /** Otherwise the first character in which two paths differ decides. */
  lemma {:induction false} FirstDifferenceDecides(start: string, c: char, d: char, a: string, b: string)
    requires c != d
    ensures Less(start + [c] + a, start + [d] + b) <==> c < d
  {
    var p, q := start + [c] + a, start + [d] + b;
    if start != "" {
      assert p[1..] == start[1..] + [c] + a && q[1..] == start[1..] + [d] + b;
      FirstDifferenceDecides(start[1..], c, d, a, b);
    }
  }

  /** The first k children do not come after the new one in path order, and the next one does. */
  ghost predicate IsFirstGreater(children: seq<Ref>, child: Ref, k: nat)
    requires k <= |children|
    reads child, children
  {
    && (forall j :: 0 <= j < k ==> !Less(child.Path, children[j].Path))
    && (k < |children| ==> Less(child.Path, children[k].Path))
  }

  class FileIDMeta {
    var entries: map<string, string>
  }

  // ----- looking names up

  /** The first child with this name. */
  function FirstNamed(children: seq<Ref>, name: string): (found: Option<Ref>)
    ensures found.Some? ==> found.value in children && found.value.Name == name
  {
    if children == [] then None
    else
      var before := FirstNamed(children[..|children| - 1], name);
      var last := children[|children| - 1];
      if before.None? && last.Name == name then Some(last) else before
  }

  lemma {:induction false} FirstNamedInserted(before: seq<Ref>, after: seq<Ref>, k: nat, child: Ref, name: string)
    requires k <= |before| && |after| == |before| + 1 && InsertedAt(before, after, child, k)
    requires child.Name == name ==> FirstNamed(before, name).None?
    ensures FirstNamed(after, name) == if child.Name == name then Some(child) else FirstNamed(before, name)
    decreases |before|
  {
    if k == |before| {
      assert after[..|after| - 1] == before;
    } else {
      FirstNamedInserted(before[..|before| - 1], after[..|after| - 1], k, child, name);
    }
  }

  method FindChild(dirRef: Ref, name: string) returns (found: Option<Ref>)
    ensures found == FirstNamed(dirRef.Children, name)
    ensures found.None? ==> forall c :: c in dirRef.Children ==> c.Name != name
    ensures found.Some? ==> exists i :: 0 <= i < |dirRef.Children| && dirRef.Children[i] == found.value &&
                                        found.value.Name == name && forall j :: 0 <= j < i ==> dirRef.Children[j].Name != name
  {
    var i := 0;
    while i < |dirRef.Children|
      invariant 0 <= i <= |dirRef.Children|
      invariant FirstNamed(dirRef.Children[..i], name).None? && forall j :: 0 <= j < i ==> dirRef.Children[j].Name != name
    {
      assert dirRef.Children[..i + 1][..i] == dirRef.Children[..i];
      if dirRef.Children[i].Name == name {
        FirstNamedPrefix(dirRef.Children, i + 1, name);
        return Some(dirRef.Children[i]);
      }
      i := i + 1;
    }
    assert dirRef.Children[..i] == dirRef.Children;
    return None;
  }

  lemma {:induction false} FirstNamedPrefix(children: seq<Ref>, k: nat, name: string)
    requires k <= |children| && FirstNamed(children[..k], name).Some?
    ensures FirstNamed(children, name) == FirstNamed(children[..k], name)
    decreases |children|
  {
    if k == |children| {
      assert children[..k] == children;
    } else {
      var front := children[..|children| - 1];
      assert front[..k] == children[..k];
      FirstNamedPrefix(front, k, name);
    }
  }

  // ----- trees

  /** Children of nodes are nodes, and each path is the parent's path joined with the name. */
  ghost predicate Consistent(nodes: set<Ref>)
    reads nodes
  {
    forall r, c {:trigger c in r.Children} :: r in nodes && c in r.Children ==> c in nodes && c.Path == Join(r.Path, c.Name)
  }

  /** A tree as the blobbers hand it out. */
  ghost predicate IsTree(root: Ref, nodes: set<Ref>)
    reads nodes
  {
    root in nodes && root.Path == "/" && root.Type.DIRECTORY? && Consistent(nodes)
  }

  /** The directory that a name leads to. */
  ghost predicate LeadsTo(dir: Ref, name: string, child: Ref)
    reads dir
  {
    FirstNamed(dir.Children, name) == Some(child) && child.Type.DIRECTORY?
  }

  /** trail[j + 1] is what fields[j] leads to from trail[j]. */
  ghost predicate IsTrail(trail: seq<Ref>, fields: seq<string>, nodes: set<Ref>)
    reads nodes
  {
    && 1 <= |trail| <= |fields| + 1
    && (forall j :: 0 <= j < |trail| ==> trail[j] in nodes)
    && forall j {:trigger fields[j]} :: 0 <= j < |trail| - 1 ==> LeadsTo(trail[j], fields[j], trail[j + 1])
  }

  lemma InsertedMembers(before: seq<Ref>, after: seq<Ref>, child: Ref)
    requires Inserted(before, after, child)
    ensures forall c :: c in after <==> c in before || c == child
  {
    var k :| 0 <= k <= |before| && InsertedAt(before, after, child, k);
    forall c | c in before
      ensures c in after
    {
      var j :| 0 <= j < |before| && before[j] == c;
      assert after[if j < k then j else j + 1] == c;
    }
  }

  lemma InsertedAlone(after: seq<Ref>, child: Ref)
    requires Inserted([], after, child)
    ensures after == [child]
  {
  }

  /** Only a lookup of the new child's own name is affected. */
  lemma InsertedLookup(before: seq<Ref>, after: seq<Ref>, child: Ref, name: string)
    requires Inserted(before, after, child)
    requires child.Name == name ==> FirstNamed(before, name).None?
    ensures FirstNamed(after, name) == if child.Name == name then Some(child) else FirstNamed(before, name)
  {
    var k :| 0 <= k <= |before| && InsertedAt(before, after, child, k);
    FirstNamedInserted(before, after, k, child, name);
  }

  ghost function Members(r: Ref): set<Ref>
    reads r
  {
    set c | c in r.Children
  }

  method EmptyRoot() returns (root: Ref, meta: FileIDMeta)
    ensures fresh(root) && fresh(meta) && root.Children == [] && IsTree(root, {root})
  {
    root := new Ref(DIRECTORY, "", "/", "/", "");
    meta := new FileIDMeta;
  }

  /** A small tree: the root with one file "a" in it. */
  method FileInRoot() returns (root: Ref, meta: FileIDMeta)
    ensures fresh(root) && fresh(meta) && fresh(Members(root)) && root !in Members(root)
    ensures IsTree(root, {root} + Members(root))
    ensures |root.Children| == 1 && root.Children[0].Name == "a" && root.Children[0].Type.FILE?
    ensures root.Children[0].Children == []
  {
    root, meta := EmptyRoot();
    var file := new Ref(FILE, "", "a", "/a", "");
    root.AddChild(file);
    InsertedAlone(root.Children, file);
    JoinAppends([], "a");
    assert PathOf([]) == "/" && [] + ["a"] == ["a"] && PathOf(["a"]) == "/a";
  }
}
