/** Absolute paths: splitting off the parent and the base name, and joining them again. */
module Paths {
  import opened CStrings
  import opened Lines
  import opened Directory

  /** The root, or a path whose components are names. */
  predicate IsPath(p: string)
    decreases |p|
  {
    p == "/" ||
    (var i := AfterLast(p, '/');
     i > 0 && Name(p[i..]) && (i == 1 || (p[..i - 1] != "/" && IsPath(p[..i - 1]))))
  }

  /** get_parent_directory */
  function Parent(p: string): string {
    var i := AfterLast(p, '/');
    if i <= 1 then "/" else p[..i - 1]
  }

  /** get_name_from_path */
  function BaseName(p: string): string {
    if p == "/" then "/" else p[AfterLast(p, '/')..]
  }

  /** construct_path */
  function Join(dir: string, name: string): string {
    if dir == "/" then "/" + name else dir + "/" + name
  }

  /** Joining undoes splitting. */
  lemma JoinSplit(p: string)
    requires IsPath(p) && p != "/"
    ensures Join(Parent(p), BaseName(p)) == p && IsPath(Parent(p)) && Name(BaseName(p))
  {
    hide IsPath, Name, AfterLast;
    var i := AfterLast(p, '/');
    PathParts(p);
    assert p == p[..i] + p[i..];
    if i == 1 {
      assert p[..1] == "/";
    } else {
      assert p[..i] == p[..i - 1] + "/";
    }
  }

  lemma PathParts(p: string)
    requires IsPath(p) && p != "/"
    ensures var i := AfterLast(p, '/');
            && i > 0 && Name(p[i..]) && IsPath("/") && (i > 1 ==> p[..i - 1] != "/" && IsPath(p[..i - 1]))
  {
    hide Name, AfterLast;
  }

  /** Splitting undoes joining. */
  lemma SplitJoin(dir: string, name: string)
    requires IsPath(dir) && Name(name)
    ensures var p := Join(dir, name); IsPath(p) && p != "/" && Parent(p) == dir && BaseName(p) == name
  {
    var p := Join(dir, name);
    var i := if dir == "/" then 1 else |dir| + 1;
    assert p[i - 1] == '/' && p[i..] == name;
    AfterLastIs(p, '/', i);
    assert p[..i - 1] == if dir == "/" then "" else dir;
    assert |p| > 1;
  }

  lemma {:induction false} PathPlain(p: string)
    requires IsPath(p)
    ensures Plain(p) && p != "" && p[0] == '/'
    decreases |p|
  {
    if p != "/" {
      var i := AfterLast(p, '/');
      assert p == p[..i] + p[i..];
      if i > 1 {
        PathPlain(p[..i - 1]);
        assert p[..i] == p[..i - 1] + "/" && p[0] == p[..i - 1][0];
      } else {
        assert p[..1] == "/";
      }
    }
  }
}
