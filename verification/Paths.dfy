/** Remote paths: pathutil.Join in core/pathutil/path.go and GetPathFields in core/common/utils.go. */
module Paths {
  import opened Options

  predicate SlashFree(s: string) {
    '/' !in s
  }

  /** A name that can stand between two slashes. */
  predicate IsName(s: string) {
    s != "" && SlashFree(s)
  }

  /** strings.Split(s, "/"): what comes before the last slash is split already, `part` has been read since. */
  datatype Scan = Scan(items: seq<string>, part: string)

  /** Empty parts are left out. */
  function Flush(scan: Scan): seq<string> {
    if scan.part == "" then scan.items else scan.items + [scan.part]
  }

  function ScanItems(s: string): Scan {
    if s == "" then Scan([], "")
    else
      var before := ScanItems(s[..|s| - 1]);
      var last := s[|s| - 1];
      if last == '/' then Scan(Flush(before), "") else Scan(before.items, before.part + [last])
  }

  /** The non-empty parts between slashes. */
  function Items(s: string): seq<string> {
    Flush(ScanItems(s))
  }

  /** strings.Join(items, "/"). */
  function JoinItems(items: seq<string>): string {
    if items == [] then ""
    else
      var last := |items| - 1;
      if last == 0 then items[0] else JoinItems(items[..last]) + "/" + items[last]
  }

  /** The absolute path with these parts. */
  function PathOf(items: seq<string>): string {
    "/" + JoinItems(items)
  }

  /** pathutil.Join(parent, name). */
  function Join(parent: string, name: string): string {
    if parent == "" && name == "" then "" else PathOf(Items(parent) + Items(name))
  }

  ghost predicate AllNames(items: seq<string>) {
    forall i :: 0 <= i < |items| ==> IsName(items[i])
  }

  lemma {:induction false} ScanNames(s: string)
    ensures AllNames(ScanItems(s).items) && SlashFree(ScanItems(s).part) && AllNames(Items(s))
  {
    if s != "" {
      ScanNames(s[..|s| - 1]);
    }
  }

  lemma {:induction false} ScanName(s: string, name: string)
    requires SlashFree(name)
    ensures ScanItems(s + name) == Scan(ScanItems(s).items, ScanItems(s).part + name)
    decreases |name|
  {
    if name == "" {
      assert s + name == s;
    } else {
      var front := name[..|name| - 1];
      assert (s + name)[..|s + name| - 1] == s + front;
      assert name == front + [name[|name| - 1]];
      ScanName(s, front);
    }
  }

  /** A path splits back into the parts it was made from. */
  lemma {:induction false} ScanPath(items: seq<string>)
    requires AllNames(items)
    ensures items == [] ==> ScanItems(PathOf(items)) == Scan([], "")
    ensures items != [] ==> ScanItems(PathOf(items)) == Scan(items[..|items| - 1], items[|items| - 1])
  {
    if items == [] {
      assert PathOf(items)[..0] == "";
    } else {
      var front, last := items[..|items| - 1], items[|items| - 1];
      ScanPath(front);
      var start := if front == [] then "/" else PathOf(front) + "/";
      assert PathOf(items) == start + last;
      ScanStart(front, start);
      ScanName(start, last);
    }
  }

  /** A slash ends the part before it. */
  lemma ScanStart(front: seq<string>, start: string)
    requires AllNames(front) && start == if front == [] then "/" else PathOf(front) + "/"
    requires front == [] ==> ScanItems(PathOf(front)) == Scan([], "")
    requires front != [] ==> ScanItems(PathOf(front)) == Scan(front[..|front| - 1], front[|front| - 1])
    ensures ScanItems(start) == Scan(front, "")
  {
    hide JoinItems;
    if front == [] {
      assert ("/")[..0] == "";
    } else {
      assert start[..|start| - 1] == PathOf(front);
      assert front == front[..|front| - 1] + [front[|front| - 1]];
    }
  }

  lemma ItemsOfPath(items: seq<string>)
    requires AllNames(items)
    ensures Items(PathOf(items)) == items
  {
    ScanPath(items);
  }

  lemma ItemsOfOne(name: string)
    requires IsName(name)
    ensures Items(name) == [name]
  {
    ScanName("", name);
    assert "" + name == name;
  }

  lemma {:induction false} ScanAppended(a: string, b: string)
    ensures ScanItems(a + "/" + b) == Scan(Items(a) + ScanItems(b).items, ScanItems(b).part)
    decreases |b|
  {
    var s := a + "/" + b;
    if b == "" {
      assert s[..|a|] == a;
      assert Items(a) + [] == Items(a);
    } else {
      var front := b[..|b| - 1];
      assert s[..|s| - 1] == a + "/" + front;
      ScanAppended(a, front);
      assert Items(a) + (ScanItems(front).items + [ScanItems(front).part])
          == Items(a) + ScanItems(front).items + [ScanItems(front).part];
    }
  }

  /** A slash ends one list of parts and starts another. */
  lemma ItemsAppended(a: string, b: string)
    ensures Items(a + "/" + b) == Items(a) + Items(b)
  {
    ScanAppended(a, b);
    assert Items(a) + (ScanItems(b).items + [ScanItems(b).part]) == Items(a) + ScanItems(b).items + [ScanItems(b).part];
  }

  /** Joining is putting a slash between the two and then leaving out empty parts. */
  lemma JoinParts(parent: string, name: string)
    ensures Join("", "") == ""
    ensures parent != "" || name != "" ==> Join(parent, name) == PathOf(Items(parent + "/" + name))
    ensures Items(Join(parent, name)) == Items(parent + "/" + name)
  {
    ItemsAppended(parent, name);
    ScanNames(parent);
    ScanNames(name);
    ItemsOfPath(Items(parent) + Items(name));
  }

  /** Joining a name to a path appends one part. */
  lemma JoinAppends(items: seq<string>, name: string)
    requires AllNames(items) && IsName(name)
    ensures Join(PathOf(items), name) == PathOf(items + [name])
  {
    ItemsOfPath(items);
    ItemsOfOne(name);
  }

  /** Each part but the first adds a slash. */
  lemma PathWritten(items: seq<string>, name: string)
    ensures PathOf([]) == "/" && PathOf([name]) == "/" + name
    ensures items != [] ==> PathOf(items + [name]) == PathOf(items) + "/" + name
  {
    assert (items + [name])[..|items|] == items;
  }

  /** Different lists of parts give different paths. */
  lemma PathOfInjective(a: seq<string>, b: seq<string>)
    requires AllNames(a) && AllNames(b) && PathOf(a) == PathOf(b)
    ensures a == b
  {
    ItemsOfPath(a);
    ItemsOfPath(b);
  }

  /** The parts that path.Clean keeps of an absolute path. */
  function CleanItems(items: seq<string>): seq<string> {
    if items == [] then []
    else
      var front := CleanItems(items[..|items| - 1]);
      var last := items[|items| - 1];
      if last == "." then front
      else if last == ".." then (if front == [] then [] else front[..|front| - 1])
      else front + [last]
  }

  /** None for a relative path. The root written in an unusual way ("//", "/.") gives one empty field. */
  function GetPathFields(p: string): Option<seq<string>> {
    if p == "" || p == "/" then Some([])
    else if p[0] != '/' then None
    else
      var cleaned := CleanItems(Items(p));
      Some(if cleaned == [] then [""] else cleaned)
  }

  /** Only a path that starts with something else than a slash is an error. */
  lemma NoneIffRelative(p: string)
    ensures GetPathFields(p).None? <==> p != "" && p[0] != '/'
  {
  }

  lemma {:induction false} CleanNames(items: seq<string>)
    requires AllNames(items)
    ensures AllNames(CleanItems(items)) && "." !in CleanItems(items) && ".." !in CleanItems(items)
  {
    if items != [] {
      CleanNames(items[..|items| - 1]);
    }
  }

  /** Fields are names without dots, apart from the one empty field of an unusual root. */
  lemma FieldsAreNames(p: string)
    requires GetPathFields(p).Some?
    ensures var fields := GetPathFields(p).value;
            (AllNames(fields) && "." !in fields && ".." !in fields) || fields == [""]
  {
    ScanNames(p);
    CleanNames(Items(p));
  }

  /** A clean path is cut into its own parts. */
  lemma FieldsOfCleanPath(items: seq<string>)
    requires AllNames(items) && "." !in items && ".." !in items
    ensures GetPathFields(PathOf(items)) == Some(items)
  {
    ItemsOfPath(items);
    CleanKeeps(items);
  }

  lemma {:induction false} CleanKeeps(items: seq<string>)
    requires AllNames(items) && "." !in items && ".." !in items
    ensures CleanItems(items) == items
  {
    if items != [] {
      CleanKeeps(items[..|items| - 1]);
    }
  }

  // ----- what path.Clean leaves out

  /** What follows is cleaned in the same way after lists of parts that are the same when cleaned. */
  lemma {:induction false} CleanAppended(a: seq<string>, b: seq<string>, rest: seq<string>)
    requires CleanItems(a) == CleanItems(b)
    ensures CleanItems(a + rest) == CleanItems(b + rest)
    decreases |rest|
  {
    if rest == [] {
      assert a + rest == a && b + rest == b;
    } else {
      var front, last := rest[..|rest| - 1], rest[|rest| - 1];
      CleanAppended(a, b, front);
      assert (a + rest)[..|a + rest| - 1] == a + front && (b + rest)[..|b + rest| - 1] == b + front;
    }
  }

  predicate IsAbs(p: string) {
    p != "" && p[0] == '/'
  }

  /** Absolute paths other than "/" have the same fields if their parts are the same when cleaned. */
  lemma SameFields(p: string, q: string)
    requires |p| > 1 && |q| > 1 && IsAbs(p) && IsAbs(q) && CleanItems(Items(p)) == CleanItems(Items(q))
    ensures GetPathFields(p) == GetPathFields(q)
  {
  }

  /** Two slashes are one, and a slash at the end can be left out. The root written with two has one empty field. */
  lemma SlashesAreOne(a: string, b: string)
    requires IsAbs(a)
    ensures GetPathFields(a + "//" + b) == GetPathFields(a + "/" + b)
    ensures a != "/" ==> GetPathFields(a + "/") == GetPathFields(a)
    ensures GetPathFields("//") == Some([""]) && GetPathFields("/") == Some([])
  {
    var p, q := a + "//" + b, a + "/" + b;
    assert p == (a + "/") + "/" + b && a + "/" == a + "/" + "";
    ItemsAppended(a, "");
    ItemsAppended(a + "/", b);
    ItemsAppended(a, b);
    SameFields(p, q);
    if a != "/" {
      SameFields(a + "/", a);
    }
    assert "//" == "/" + "/" + "" && "/" == "" + "/" + "";
    ItemsAppended("/", "");
    ItemsAppended("", "");
  }

  /** The parts of a path with something in the middle. */
  lemma ItemsBetween(a: string, middle: string, b: string)
    ensures Items(a + "/" + middle + "/" + b) == Items(a) + Items(middle) + Items(b)
  {
    ItemsAppended(a + "/" + middle, b);
    ItemsAppended(a, middle);
  }

  /** A middle whose parts clean away after `a` can be left out of an absolute path. */
  lemma LeftOut(a: string, middle: string, b: string)
    requires a == "" || IsAbs(a)
    requires CleanItems(Items(a) + Items(middle)) == CleanItems(Items(a))
    ensures GetPathFields(a + "/" + middle + "/" + b) == GetPathFields(a + "//" + b)
  {
    var p, q := a + "/" + middle + "/" + b, a + "//" + b;
    assert q == a + "/" + "" + "/" + b;
    ItemsBetween(a, middle, b);
    ItemsBetween(a, "", b);
    assert Items(a) + Items("") == Items(a);
    CleanAppended(Items(a) + Items(middle), Items(a), Items(b));
    assert p[0] == '/' && q[0] == '/';
    SameFields(p, q);
  }

  lemma DotCleans(items: seq<string>)
    ensures CleanItems(items + ["."]) == CleanItems(items)
  {
    assert (items + ["."])[..|items|] == items;
  }

  lemma NameUpCleans(items: seq<string>, name: string)
    requires name != "." && name != ".."
    ensures CleanItems(items + [name, ".."]) == CleanItems(items)
  {
    var longer, up := items + [name], items + [name, ".."];
    assert longer[..|items|] == items && up[..|longer|] == longer;
    assert CleanItems(longer) == CleanItems(items) + [name];
  }

  lemma Regrouped(a: string, middle: string, b: string)
    ensures a + "/" + middle + "/" + b == a + ("/" + middle + "/") + b
  {
  }

  /** A part "." can be left out. */
  lemma DotLeftOut(a: string, b: string)
    requires a == "" || IsAbs(a)
    ensures GetPathFields(a + "/./" + b) == GetPathFields(a + "//" + b)
  {
    hide GetPathFields, Items, CleanItems;
    ItemsOfOne(".");
    DotCleans(Items(a));
    LeftOut(a, ".", b);
    Regrouped(a, ".", b);
    assert "/" + "." + "/" == "/./";
  }

  /** A name followed by ".." can be left out. */
  lemma NameUpLeftOut(a: string, name: string, b: string)
    requires (a == "" || IsAbs(a)) && IsName(name) && name != "." && name != ".."
    ensures GetPathFields(a + "/" + (name + "/..") + "/" + b) == GetPathFields(a + "//" + b)
  {
    hide GetPathFields, Items, CleanItems;
    ItemsOfOne(name);
    ItemsOfOne("..");
    ItemsAppended(name, "..");
    NameUpCleans(Items(a), name);
    assert name + "/.." == name + "/" + "..";
    assert [name] + [".."] == [name, ".."];
    LeftOut(a, name + "/..", b);
  }

  lemma UpCleans()
    ensures Items("") == [] && CleanItems([".."]) == CleanItems([]) == []
  {
    assert [".."][..0] == [];
  }

  /** A ".." at the root can be left out. */
  lemma RootUpLeftOut(b: string)
    ensures GetPathFields("/../" + b) == GetPathFields("//" + b)
  {
    hide GetPathFields, Items, CleanItems;
    ItemsOfOne("..");
    UpCleans();
    assert Items("") + [".."] == [".."];
    LeftOut("", "..", b);
    Regrouped("", "..", b);
    assert "/" + ".." + "/" == "/../" && "" + "/../" == "/../" && "" + "//" == "//";
  }

  /** A path is its own fields put together exactly when it is written in the clean form. */
  lemma CleanIffOwnFields(p: string)
    ensures (exists items: seq<string> :: AllNames(items) && "." !in items && ".." !in items && p == PathOf(items))
            <==> GetPathFields(p).Some? && p == PathOf(GetPathFields(p).value)
  {
    if items: seq<string> :| AllNames(items) && "." !in items && ".." !in items && p == PathOf(items) {
      FieldsOfCleanPath(items);
    }
    if GetPathFields(p).Some? && p == PathOf(GetPathFields(p).value) {
      FieldsAreNames(p);
      assert PathOf([""]) == "/";
    }
  }

  /** A slash at the end changes no field, but the path is not in the clean form any more. */
  lemma TrailingSlash(items: seq<string>)
    requires items != [] && AllNames(items) && "." !in items && ".." !in items
    ensures GetPathFields(PathOf(items) + "/") == Some(items) && PathOf(items) + "/" != PathOf(items)
  {
    var p := PathOf(items);
    assert (p + "/")[..|p|] == p;
    ItemsOfPath(items);
    assert Items(p + "/") == Items(p);
    CleanKeeps(items);
    if p == "/" {
      assert PathOf([]) == "/";
      PathOfInjective(items, []);
    }
  }
}
