/** `Path::starts_with` from Rust's standard library, as the event filter uses it:
    a path starts with a base when the base's components are a prefix of the
    path's components. Components come from splitting at `/`, dropping empty
    pieces and `.` pieces (a leading `.` of a relative path is kept), with a
    root component for a leading `/`. */
module PathMatch {
  import opened Text

  datatype Component = RootDir | CurDir | ParentDir | Normal(name: string)

  /** The components of the pieces between separators: `""` and `"."` vanish. */
  function Normals(pieces: seq<string>): (r: seq<Component>)
    ensures |r| <= |pieces|
  {
    if |pieces| == 0 then []
    else
      var head := if pieces[0] == "" || pieces[0] == "." then []
                  else if pieces[0] == ".." then [ParentDir]
                  else [Normal(pieces[0])];
      head + Normals(pieces[1..])
  }

  /** The components of a path's pieces; the first piece is empty for a rooted path. */
  function FromPieces(rooted: bool, pieces: seq<string>): seq<Component>
    requires |pieces| >= 1
  {
    if rooted then [RootDir] + Normals(pieces[1..])
    else if pieces[0] == "." then [CurDir] + Normals(pieces[1..])
    else Normals(pieces)
  }

  /** `Path::components` for a Unix path. */
  function Components(p: string): (r: seq<Component>)
    ensures |r| > 0 && r[0] == RootDir <==> |p| > 0 && p[0] == '/'
  {
    FromPieces(|p| > 0 && p[0] == '/', Split(p, '/'))
  }

  /** `path.starts_with(base)`: whole components, not characters. */
  predicate StartsWith(path: string, base: string)
  {
    var cp := Components(path);
    var cb := Components(base);
    |cb| <= |cp| && cp[..|cb|] == cb
  }

  lemma {:induction false} NormalsAppend(a: seq<string>, b: seq<string>)
    ensures Normals(a + b) == Normals(a) + Normals(b)
  {
    if |a| > 0 {
      assert (a + b)[1..] == a[1..] + b;
      NormalsAppend(a[1..], b);
    } else {
      assert a + b == b;
    }
  }

  lemma FromPiecesAppend(rooted: bool, sa: seq<string>, sb: seq<string>)
    requires |sa| >= 1
    ensures FromPieces(rooted, sa + sb) == FromPieces(rooted, sa) + Normals(sb)
  {
    assert (sa + sb)[0] == sa[0];
    if rooted || sa[0] == "." {
      assert (sa + sb)[1..] == sa[1..] + sb;
      NormalsAppend(sa[1..], sb);
    } else {
      NormalsAppend(sa, sb);
    }
  }

  /** Appending `"/" + b` to a non-empty path appends the components of `b`'s pieces. */
  lemma ComponentsOfChild(a: string, b: string)
    requires |a| > 0
    ensures Components(a + "/" + b) == Components(a) + Normals(Split(b, '/'))
  {
    var p := a + "/" + b;
    SplitAround(a, b, '/');
    assert p[0] == a[0];
    FromPiecesAppend(a[0] == '/', Split(a, '/'), Split(b, '/'));
  }

  /** Every path starts with itself. */
  lemma StartsWithSelf(p: string)
    ensures StartsWith(p, p)
  {
  }

  /** Anything below a non-empty directory starts with that directory, whatever `rest` is. */
  lemma StartsWithChild(base: string, rest: string)
    requires |base| > 0
    ensures StartsWith(base + "/" + rest, base)
  {
    ComponentsOfChild(base, rest);
    var cb := Components(base);
    assert (cb + Normals(Split(rest, '/')))[..|cb|] == cb;
  }

  /** `/x` splits into an empty piece and `x`. */
  lemma SplitRootName(x: string)
    requires '/' !in x
    ensures Split("/" + x, '/') == ["", x]
  {
    assert "/" + x == "" + ['/'] + x;
    SplitAround("", x, '/');
    SplitWithoutSeparator(x, '/');
  }

  /** `/x` has a root and one name. */
  lemma ComponentsOfRootName(x: string)
    requires '/' !in x && x != "" && x != "." && x != ".."
    ensures Components("/" + x) == [RootDir, Normal(x)]
  {
    SplitRootName(x);
    assert ["", x][1..] == [x];
    assert [x][1..] == [];
  }

  /** `/x/y` splits into an empty piece, `x` and `y`. */
  lemma SplitTwoNames(x: string, y: string)
    requires '/' !in x && '/' !in y
    ensures Split("/" + x + "/" + y, '/') == ["", x, y]
  {
    var p := "/" + x + "/" + y;
    assert p == "" + ['/'] + (x + ['/'] + y);
    SplitAround("", x + ['/'] + y, '/');
    SplitAround(x, y, '/');
    SplitWithoutSeparator(x, '/');
    SplitWithoutSeparator(y, '/');
  }

  /** `/x/y` has a root and the two names as its components. */
  lemma ComponentsOfTwoNames(x: string, y: string)
    requires '/' !in x && '/' !in y
    requires x != "" && x != "." && x != ".." && y != "" && y != "." && y != ".."
    ensures Components("/" + x + "/" + y) == [RootDir, Normal(x), Normal(y)]
  {
    SplitTwoNames(x, y);
    assert ["", x, y][1..] == [x, y];
    NormalsOfNames(x, y);
  }

  /** A string prefix is not enough: `/a/bc` does not start with `/a/b`. */
  lemma SiblingWithCommonPrefix()
    ensures !StartsWith("/a/bc", "/a/b")
  {
    assert "/a/bc" == "/" + "a" + "/" + "bc";
    assert "/a/b" == "/" + "a" + "/" + "b";
    ComponentsOfTwoNames("a", "bc");
    ComponentsOfTwoNames("a", "b");
    var cp := Components("/a/bc");
    assert cp[..3][2] == Normal("bc") != Normal("b");
  }

  lemma NormalsOfNames(x: string, y: string)
    requires x != "" && x != "." && x != ".." && y != "" && y != "." && y != ".."
    ensures Normals([x, y]) == [Normal(x), Normal(y)]
  {
    assert [x, y][1..] == [y];
    assert [y][1..] == [];
  }

  /** A trailing separator does not change the components. */
  lemma TrailingSeparatorIgnored(p: string)
    requires |p| > 0
    ensures Components(p + "/") == Components(p)
  {
    ComponentsOfChild(p, "");
    assert p + "/" + "" == p + "/";
    assert Split("", '/') == [""];
    assert [""][1..] == [];
    assert Normals([""]) == [];
  }
}
