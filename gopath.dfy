/** Go's `path.Ext` and `path/filepath`'s `Base`, `Dir` and `Clean`, on a
    Unix host: the separator is '/' and there are no volume names. Go works on
    bytes; since '/' and '.' never occur inside a multi-byte UTF-8 sequence,
    scanning characters finds the same separators and dots. */
module GoPath {

  import GoStrings

  /** What follows the last '/' (all of `s` when it has none). */
  function LastElement(s: string): string
    decreases |s|
  {
    if s == [] || s[|s| - 1] == '/' then ""
    else LastElement(s[..|s| - 1]) + [s[|s| - 1]]
  }

  /** Everything up to and including the last '/' ("" when there is none). */
  function DirPrefix(s: string): string
    decreases |s|
  {
    if s == [] || s[|s| - 1] == '/' then s
    else DirPrefix(s[..|s| - 1])
  }

  /** A path splits into its directory part, which is empty or ends in '/',
      and its final element, which holds no '/'. */
  lemma {:induction false} SplitPath(s: string)
    ensures DirPrefix(s) + LastElement(s) == s
    ensures DirPrefix(s) == "" || DirPrefix(s)[|DirPrefix(s)| - 1] == '/'
    ensures '/' !in LastElement(s)
    decreases |s|
  {
    if s != [] && s[|s| - 1] != '/' {
      var init := s[..|s| - 1];
      SplitPath(init);
      assert s == init + [s[|s| - 1]];
    }
  }

  /** Appending text free of '/' extends the final element and keeps the
      directory part. */
  lemma {:induction false} LastElementAppend(s: string, t: string)
    requires '/' !in t
    ensures LastElement(s + t) == LastElement(s) + t
    ensures DirPrefix(s + t) == DirPrefix(s)
    decreases |t|
  {
    if t == [] {
      assert s + t == s;
    } else {
      var u := s + t;
      var init := t[..|t| - 1];
      var c := t[|t| - 1];
      assert t == init + [c];
      assert '/' !in init;
      assert u[..|u| - 1] == s + init;
      LastElementAppend(s, init);
      assert u[|u| - 1] == c;
      assert LastElement(u) == LastElement(s + init) + [c];
    }
  }

  /** path.Ext: the suffix of `path` from the final '.' of its final element,
      or "" when that element has no '.'. */
  function Ext(path: string): string
    decreases |path|
  {
    if path == [] || path[|path| - 1] == '/' then ""
    else if path[|path| - 1] == '.' then "."
    else
      var e := Ext(path[..|path| - 1]);
      if e == "" then "" else e + [path[|path| - 1]]
  }

  /** The inductive step of ExtOfLastElement, for a path ending in `c`. */
  lemma ExtStep(le: string, e: string, c: char, ext: string)
    requires c != '/'
    requires |e| <= |le| && le[|le| - |e|..] == e
    requires e == "" <==> '.' !in le
    requires e == "" || (e[0] == '.' && '.' !in e[1..])
    requires ext == (if c == '.' then "." else if e == "" then "" else e + [c])
    ensures |ext| <= |le + [c]| && (le + [c])[|le + [c]| - |ext|..] == ext
    ensures ext == "" <==> '.' !in le + [c]
    ensures ext == "" || (ext[0] == '.' && '.' !in ext[1..])
  {
    var u := le + [c];
    assert c in u;
    if c != '.' && e != "" {
      assert u[|u| - |ext|..] == le[|le| - |e|..] + [c];
      var k :| 0 <= k < |le| && le[k] == '.';
      assert u[k] == '.';
      assert ext[1..] == e[1..] + [c];
    }
  }

  /** The extension is a suffix of the final element that starts at its only
      remaining '.', and it is empty exactly when that element has no '.'. */
  lemma {:induction false} ExtOfLastElement(path: string)
    ensures |Ext(path)| <= |LastElement(path)|
    ensures LastElement(path)[|LastElement(path)| - |Ext(path)|..] == Ext(path)
    ensures Ext(path) == "" <==> '.' !in LastElement(path)
    ensures Ext(path) == "" || (Ext(path)[0] == '.' && '.' !in Ext(path)[1..])
    decreases |path|
  {
    if path != [] && path[|path| - 1] != '/' {
      var init := path[..|path| - 1];
      ExtOfLastElement(init);
      ExtStep(LastElement(init), Ext(init), path[|path| - 1], Ext(path));
    }
  }

  /** A path whose final element ends in '.' and then `t`, which holds no
      '.' and no '/', has the extension "." + `t`. */
  lemma {:induction false} ExtAfterDot(s: string, t: string)
    requires '/' !in t && '.' !in t
    ensures Ext(s + "." + t) == "." + t
    decreases |t|
  {
    var u := s + "." + t;
    if t == [] {
      assert u == s + ['.'];
    } else {
      var init, c := t[..|t| - 1], t[|t| - 1];
      assert t == init + [c];
      assert '/' !in init && '.' !in init;
      assert u[..|u| - 1] == s + "." + init;
      ExtAfterDot(s, init);
      assert "." + t == ("." + init) + [c];
    }
  }

  /** The final element without its extension. */
  function Stem(path: string): (stem: string)
    ensures stem + Ext(path) == LastElement(path)
  {
    ExtOfLastElement(path);
    var last := LastElement(path);
    last[..|last| - |Ext(path)|]
  }

  /** Go slices `file[:len(file)-len(ext)]`: that drops the extension from the
      final element and keeps the directory part. */
  lemma DropExt(path: string)
    ensures |Ext(path)| <= |path|
    ensures path[..|path| - |Ext(path)|] == DirPrefix(path) + Stem(path)
  {
    SplitPath(path);
    ExtOfLastElement(path);
    var d, le, e := DirPrefix(path), LastElement(path), Ext(path);
    assert path == d + Stem(path) + e;
  }

  /** Only the text from the final '.' of the final element is dropped: a
      final element without '.' is its own stem, and the extension that is
      removed holds no other '.'. */
  lemma ExtensionStripping(path: string)
    ensures '.' !in LastElement(path) ==> Stem(path) == LastElement(path)
    ensures '.' in LastElement(path) ==>
              Ext(path) != "" && Ext(path)[0] == '.' && '.' !in Ext(path)[1..]
  {
    ExtOfLastElement(path);
  }

  function TrimTrailingSlashes(s: string): string
    decreases |s|
  {
    if s != [] && s[|s| - 1] == '/' then TrimTrailingSlashes(s[..|s| - 1]) else s
  }

  /** filepath.Base: the last element after trailing slashes are removed;
      "." for the empty path and "/" for a path of slashes only. */
  function Base(path: string): string
  {
    if path == "" then "."
    else
      var p := TrimTrailingSlashes(path);
      if p == "" then "/" else LastElement(p)
  }

  /** For a path that does not end in '/', Base is the final element. */
  lemma BaseOfFilePath(path: string)
    requires path != "" && path[|path| - 1] != '/'
    ensures Base(path) == LastElement(path)
  {
  }

  // filepath.Clean and filepath.Dir

  /** The length of the longest prefix of `s` without '/'. */
  function RunLength(s: string): (n: nat)
    ensures n <= |s|
    ensures s != [] && s[0] != '/' ==> n > 0
    decreases |s|
  {
    if s == [] || s[0] == '/' then 0 else 1 + RunLength(s[1..])
  }

  /** The non-empty runs between separators, in order. */
  function Elements(s: string): seq<string>
    decreases |s|
  {
    if s == [] then []
    else if s[0] == '/' then Elements(s[1..])
    else
      var n := RunLength(s);
      [s[..n]] + Elements(s[n..])
  }

  function Join(elems: seq<string>): string
    decreases |elems|
  {
    if |elems| == 0 then ""
    else if |elems| == 1 then elems[0]
    else elems[0] + "/" + Join(elems[1..])
  }

  /** One element of Clean's left-to-right scan: "." is dropped, ".." removes
      the previous real element, is dropped at the root, and is kept at the
      front of a relative path. */
  function Step(stack: seq<string>, e: string, rooted: bool): seq<string>
  {
    if e == "." then stack
    else if e == ".." then
      if |stack| > 0 && stack[|stack| - 1] != ".." then stack[..|stack| - 1]
      else if rooted then stack
      else stack + [".."]
    else stack + [e]
  }

  function Resolve(elems: seq<string>, rooted: bool): seq<string>
    decreases |elems|
  {
    if elems == [] then []
    else Step(Resolve(elems[..|elems| - 1], rooted), elems[|elems| - 1], rooted)
  }

  /** filepath.Clean: the shortest path naming the same file by lexical
      processing; "." when nothing is left. */
  function Clean(path: string): (c: string)
    ensures c != ""
  {
    if path == "" then "."
    else
      var rooted := path[0] == '/';
      var out := (if rooted then "/" else "") + Join(Resolve(Elements(path), rooted));
      if out == "" then "." else out
  }

  /** filepath.Dir: everything up to and including the last separator,
      cleaned. */
  function Dir(path: string): (d: string)
    ensures d != ""
  {
    Clean(DirPrefix(path))
  }

  /** A path element that Clean keeps as it is. */
  predicate PlainName(e: string)
  {
    e != "" && '/' !in e && e != "." && e != ".."
  }

  lemma {:induction false} RunLengthOfElement(e: string, t: string)
    requires '/' !in e
    requires t == "" || t[0] == '/'
    ensures RunLength(e + t) == |e|
    decreases |e|
  {
    if e == [] {
      assert e + t == t;
    } else {
      assert e[0] in e;
      assert (e + t)[1..] == e[1..] + t;
      assert forall c :: c in e[1..] ==> c in e;
      RunLengthOfElement(e[1..], t);
    }
  }

  lemma ElementsAfterSlash(r: string)
    ensures Elements("/" + r) == Elements(r)
  {
    assert ("/" + r)[1..] == r;
  }

  lemma ElementsOfSlash()
    ensures Elements("/") == []
  {
    ElementsAfterSlash("");
    assert "/" + "" == "/";
  }

  /** An element followed by a separator (or by nothing) is split off whole. */
  lemma ElementsCons(e: string, rest: string)
    requires e != "" && '/' !in e
    requires rest == "" || rest[0] == '/'
    ensures Elements(e + rest) == [e] + Elements(rest)
  {
    var u := e + rest;
    RunLengthOfElement(e, rest);
    assert u[0] == e[0];
    assert e[0] in e;
    assert u[..|e|] == e;
    assert u[|e|..] == rest;
  }

  /** Every entry is a non-empty run without separators. */
  predicate Runs(elems: seq<string>)
  {
    forall i :: 0 <= i < |elems| ==> elems[i] != "" && '/' !in elems[i]
  }

  lemma JoinCons(elems: seq<string>)
    requires |elems| > 1
    ensures Join(elems) == elems[0] + "/" + Join(elems[1..])
  {
  }

  /** Splitting a joined list of elements gives the elements back. */
  lemma {:induction false} ElementsOfJoin(elems: seq<string>, t: string)
    requires Runs(elems)
    requires t == "" || t[0] == '/'
    ensures Elements(Join(elems) + t) == elems + Elements(t)
    decreases |elems|
  {
    if |elems| == 0 {
      assert Join(elems) + t == t;
    } else if |elems| == 1 {
      ElementsCons(elems[0], t);
    } else {
      var e, tail := elems[0], elems[1..];
      var rest := "/" + (Join(tail) + t);
      assert Runs(tail);
      calc {
        Elements(Join(elems) + t);
        { JoinCons(elems); assert Join(elems) + t == e + rest; }
        Elements(e + rest);
        { ElementsCons(e, rest); }
        [e] + Elements(rest);
        { ElementsAfterSlash(Join(tail) + t); }
        [e] + Elements(Join(tail) + t);
        { ElementsOfJoin(tail, t); }
        [e] + (tail + Elements(t));
        { assert elems == [e] + tail; }
        elems + Elements(t);
      }
    }
  }

  lemma {:induction false} ResolvePlain(elems: seq<string>, rooted: bool)
    requires forall i :: 0 <= i < |elems| ==> PlainName(elems[i])
    ensures Resolve(elems, rooted) == elems
    decreases |elems|
  {
    if elems != [] {
      ResolvePlain(elems[..|elems| - 1], rooted);
      assert elems[..|elems| - 1] + [elems[|elems| - 1]] == elems;
    }
  }

  lemma JoinStart(elems: seq<string>)
    requires |elems| > 0 && elems[0] != ""
    ensures Join(elems) != "" && Join(elems)[0] == elems[0][0]
  {
  }

  /** Clean leaves a relative path of plain elements unchanged, apart from
      dropping one trailing separator. */
  lemma CleanPlainDirectory(elems: seq<string>)
    requires |elems| > 0
    requires forall i :: 0 <= i < |elems| ==> PlainName(elems[i])
    ensures Clean(Join(elems) + "/") == Join(elems)
  {
    var j := Join(elems);
    JoinStart(elems);
    assert elems[0][0] in elems[0];
    assert (j + "/")[0] == j[0];
    assert Runs(elems);
    ElementsOfJoin(elems, "/");
    ElementsOfSlash();
    assert Elements(j + "/") == elems;
    ResolvePlain(elems, false);
  }

  /** The directory part of `dir + "/" + name` ends at the '/' before `name`. */
  lemma DirPrefixBeforeName(dir: string, name: string)
    requires '/' !in name
    ensures DirPrefix(dir + "/" + name) == dir + "/"
  {
    LastElementAppend(dir + "/", name);
  }

  /** Dir of a relative path of plain elements is the path up to the last
      separator. */
  lemma DirOfPlainPath(elems: seq<string>, name: string)
    requires |elems| > 0
    requires forall i :: 0 <= i < |elems| ==> PlainName(elems[i])
    requires '/' !in name
    ensures Dir(Join(elems) + "/" + name) == Join(elems)
  {
    DirPrefixBeforeName(Join(elems), name);
    CleanPlainDirectory(elems);
  }

  /** A path without separators lies in the current directory. */
  lemma DirWithoutSeparator(path: string)
    requires '/' !in path
    ensures Dir(path) == "."
  {
    LastElementAppend("", path);
    assert "" + path == path;
  }

  /** A leading "." element is dropped by Clean's scan. */
  lemma {:induction false} ResolveDotFront(elems: seq<string>, rooted: bool)
    ensures Resolve(["."] + elems, rooted) == Resolve(elems, rooted)
    decreases |elems|
  {
    if elems == [] {
      assert ["."] + elems == ["."];
      assert ["."][..0] == [];
    } else {
      var n := |elems| - 1;
      var all := ["."] + elems;
      assert all[..|all| - 1] == ["."] + elems[..n];
      assert all[|all| - 1] == elems[n];
      ResolveDotFront(elems[..n], rooted);
    }
  }

  /** Clean drops a leading "./" and one trailing separator from a relative
      path of plain elements. */
  lemma CleanDotDirectory(elems: seq<string>)
    requires |elems| > 0
    requires forall i :: 0 <= i < |elems| ==> PlainName(elems[i])
    ensures Clean("./" + Join(elems) + "/") == Join(elems)
  {
    var j := Join(elems);
    var tail := "/" + (j + "/");
    assert Elements("." + tail) == ["."] + elems by {
      ElementsCons(".", tail);
      ElementsAfterSlash(j + "/");
      assert Runs(elems);
      ElementsOfJoin(elems, "/");
      ElementsOfSlash();
    }
    assert Resolve(Elements("." + tail), false) == elems by {
      ResolveDotFront(elems, false);
      ResolvePlain(elems, false);
    }
    JoinStart(elems);
    CleanRelative("." + tail, elems);
    DotSlashFront(j);
  }

  lemma DotSlashFront(j: string)
    ensures "./" + j + "/" == "." + ("/" + (j + "/"))
  {
    assert "./" == "." + "/";
    GoStrings.AppendAssoc(".", "/", j);
    GoStrings.AppendAssoc(".", "/" + j, "/");
    GoStrings.AppendAssoc("/", j, "/");
  }

  /** Clean of a relative path is its resolved elements, joined. */
  lemma CleanRelative(p: string, resolved: seq<string>)
    requires p != "" && p[0] != '/'
    requires Resolve(Elements(p), false) == resolved
    requires Join(resolved) != ""
    ensures Clean(p) == Join(resolved)
  {
    assert "" + Join(resolved) == Join(resolved);
  }

  /** A name without separators after a directory prefix is the final element. */
  lemma LastElementAfterDirectory(d: string, t: string)
    requires d == "" || d[|d| - 1] == '/'
    requires '/' !in t
    ensures LastElement(d + t) == t
    ensures DirPrefix(d + t) == d
  {
    LastElementAppend(d, t);
    assert LastElement(d) == "";
    assert DirPrefix(d) == d;
  }

  /** Dir of a path that starts with "./" drops that prefix. */
  lemma DirOfDotPath(elems: seq<string>, name: string)
    requires |elems| > 0
    requires forall i :: 0 <= i < |elems| ==> PlainName(elems[i])
    requires '/' !in name
    ensures Dir("./" + Join(elems) + "/" + name) == Join(elems)
  {
    DirPrefixBeforeName("./" + Join(elems), name);
    CleanDotDirectory(elems);
  }
}
