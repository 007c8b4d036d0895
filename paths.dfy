/** Request-path handling of the file browser: the substring test that decides
    whether a fragment is resolved under the public root, and the lexical path
    operations (`parent`, `file_name`, `extension`) the handlers rely on.
    Paths are `/`-separated strings. */
module Paths {
  import opened Wrappers

  /** Name of the public root directory that request fragments are resolved under. */
  const PUBLIC_DIR: string := "static"

  /** `t` occurs in `s` at index `i`. */
  ghost predicate OccursAt(s: string, t: string, i: int) {
    0 <= i && i + |t| <= |s| && s[i..i + |t|] == t
  }

  /** `s.contains(t)`: a test for a substring, at any position. */
  predicate Contains(s: string, t: string)
    ensures t <= s ==> Contains(s, t)
    ensures Contains(s, t) ==> |t| <= |s|
    decreases |s|
  {
    |t| <= |s| && (s[..|t|] == t || Contains(s[1..], t))
  }

  lemma {:induction false} OccursContains(s: string, t: string, i: int)
    requires OccursAt(s, t, i)
    ensures Contains(s, t)
    decreases i
  {
    if s[..|t|] != t {
      assert i > 0;
      assert s[1..][i - 1..i - 1 + |t|] == s[i..i + |t|];
      OccursContains(s[1..], t, i - 1);
    }
  }

  lemma {:induction false} ContainsOccurs(s: string, t: string)
    requires Contains(s, t)
    ensures exists i :: OccursAt(s, t, i)
    decreases |s|
  {
    if s[..|t|] == t {
      assert OccursAt(s, t, 0);
    } else {
      ContainsOccurs(s[1..], t);
      var i :| OccursAt(s[1..], t, i);
      assert s[i + 1..i + 1 + |t|] == s[1..][i..i + |t|];
      assert OccursAt(s, t, i + 1);
    }
  }

  /** `Contains` is exactly "occurs somewhere", not a prefix test. */
  lemma ContainsIff(s: string, t: string)
    ensures Contains(s, t) <==> exists i :: OccursAt(s, t, i)
  {
    if Contains(s, t) {
      ContainsOccurs(s, t);
    }
    if exists i :: OccursAt(s, t, i) {
      var i :| OccursAt(s, t, i);
      OccursContains(s, t, i);
    }
  }

  /** The root-prefixing step of both GET handlers: a fragment that does not
      mention the public root anywhere gets `static/` in front of it. The
      result always mentions the root and always ends with the fragment. */
  function Normalize(fragment: string): (path: string)
    ensures Contains(path, PUBLIC_DIR)
    ensures |fragment| <= |path| && path[|path| - |fragment|..] == fragment
  {
    if Contains(fragment, PUBLIC_DIR) then fragment
    else
      assert (PUBLIC_DIR + "/" + fragment)[..|PUBLIC_DIR|] == PUBLIC_DIR;
      PUBLIC_DIR + "/" + fragment
  }

  /** The fragment is kept exactly when it already mentions the root;
      otherwise the result is precisely `static/` followed by the fragment. */
  lemma NormalizeCases(fragment: string)
    ensures Normalize(fragment) == fragment <==> Contains(fragment, PUBLIC_DIR)
    ensures !Contains(fragment, PUBLIC_DIR) ==> Normalize(fragment) == PUBLIC_DIR + "/" + fragment
  {
  }

  lemma NormalizeIdempotent(fragment: string)
    ensures Normalize(Normalize(fragment)) == Normalize(fragment)
  {
  }

  /** Because the test looks for `static` anywhere, a fragment that climbs out
      of the root through `../static` (such as `../static/../../etc/passwd`)
      is used unchanged and is not placed under `static/`. */
  lemma SubstringTestAdmitsEscape(rest: string)
    ensures Normalize("../" + PUBLIC_DIR + rest) == "../" + PUBLIC_DIR + rest
    ensures !(PUBLIC_DIR + "/" <= Normalize("../" + PUBLIC_DIR + rest))
  {
    var f := "../" + PUBLIC_DIR + rest;
    assert f[3..9] == PUBLIC_DIR;
    OccursContains(f, PUBLIC_DIR, 3);
    assert f[0] != (PUBLIC_DIR + "/")[0];
  }

  /** `s` without its trailing separators. */
  function TrimSlashes(s: string): (r: string)
    ensures r <= s
    ensures r == [] || r[|r| - 1] != '/'
  {
    if s != [] && s[|s| - 1] == '/' then TrimSlashes(s[..|s| - 1]) else s
  }

  /** What `TrimSlashes` removes is separators only. */
  lemma {:induction false} TrimmedAreSlashes(s: string)
    ensures forall k :: |TrimSlashes(s)| <= k < |s| ==> s[k] == '/'
  {
    if s != [] && s[|s| - 1] == '/' {
      TrimmedAreSlashes(s[..|s| - 1]);
    }
  }

  /** Index of the last `c` in `s`. */
  function LastIndex(s: string, c: char): (r: Option<nat>)
    ensures r.None? <==> c !in s
    ensures r.Some? ==> r.value < |s| && s[r.value] == c && c !in s[r.value + 1..]
  {
    if s == [] then None
    else if s[|s| - 1] == c then Some(|s| - 1)
    else
      var r := LastIndex(s[..|s| - 1], c);
      assert r.Some? ==> s[r.value + 1..] == s[..|s| - 1][r.value + 1..] + [s[|s| - 1]];
      r
  }

  lemma {:induction false} LastIndexAt(s: string, c: char, i: nat)
    requires i < |s| && s[i] == c && c !in s[i + 1..]
    ensures LastIndex(s, c) == Some(i)
    decreases |s|
  {
    if i < |s| - 1 {
      assert s[|s| - 1] == s[i + 1..][|s| - 2 - i];
      assert s[..|s| - 1][i + 1..] <= s[i + 1..];
      LastIndexAt(s[..|s| - 1], c, i);
    }
  }

  /** Every character of `s` is a separator (the empty path or the root). */
  predicate AllSlashes(s: string) {
    forall k :: 0 <= k < |s| ==> s[k] == '/'
  }

  /** `Path::parent`: the path without its final component. There is none for
      the empty path and for the root; a single relative component has the
      empty path as parent, and a component right under the root has the root. */
  function Parent(p: string): (r: Option<string>)
    ensures r.None? <==> AllSlashes(p)
    ensures r.Some? ==> r.value < p
  {
    var q := TrimSlashes(p);
    TrimmedAreSlashes(p);
    if q == [] then None
    else
      assert q[|q| - 1] == p[|q| - 1];
      match LastIndex(q, '/')
      case None => Some("")
      case Some(i) =>
        var head := TrimSlashes(q[..i]);
        TrimmedAreSlashes(q[..i]);
        if head == [] then
          // q[..i + 1] is made of separators only, so q[..1] is the root "/"
          assert q[0] == '/';
          Some(q[..1])
        else Some(head)
  }

  /** A read directory entry is the directory joined with a name; its parent is
      that directory again. */
  lemma ParentOfJoin(dir: string, name: string)
    requires dir != [] && dir[|dir| - 1] != '/'
    requires name != [] && '/' !in name
    ensures Parent(dir + "/" + name) == Some(dir)
  {
    var p := dir + "/" + name;
    assert p[|p| - 1] == name[|name| - 1];
    assert p[|dir|] == '/' && p[|dir| + 1..] == name;
    LastIndexAt(p, '/', |dir|);
    assert p[..|dir|] == dir;
    ParentAt(p, |dir|);
  }

  /** The parent of a path that has no trailing separator, and whose last
      separator follows a non-empty head that has none either, is that head. */
  lemma ParentAt(p: string, i: nat)
    requires p != [] && p[|p| - 1] != '/'
    requires LastIndex(p, '/') == Some(i)
    requires i > 0 && p[i - 1] != '/'
    ensures Parent(p) == Some(p[..i])
  {
    assert TrimSlashes(p) == p;
    assert TrimSlashes(p[..i]) == p[..i];
  }

  /** `Path::file_name`: the final component, when it is a name (not `.`,
      `..`, nor missing). */
  function FileName(p: string): (r: Option<string>)
    ensures r.Some? ==>
      var q := TrimSlashes(p);
      && r.value != [] && r.value != "." && r.value != ".." && '/' !in r.value
      && |r.value| <= |q| && q[|q| - |r.value|..] == r.value
      && (|r.value| == |q| || q[|q| - |r.value| - 1] == '/')
  {
    var q := TrimSlashes(p);
    var name := match LastIndex(q, '/') case None => q case Some(i) => q[i + 1..];
    if name == [] || name == "." || name == ".." then None else Some(name)
  }

  /** `Path::extension`: what follows the last `.` of the file name, unless
      that dot is the name's first character. */
  function Extension(p: string): (r: Option<string>)
    ensures r.Some? ==> FileName(p).Some? && |r.value| + 1 < |FileName(p).value|
  {
    match FileName(p)
    case None => None
    case Some(name) => NameExtension(name)
  }

  function NameExtension(name: string): (r: Option<string>)
    ensures r.Some? ==> |r.value| + 1 < |name|
  {
    match LastIndex(name, '.')
    case None => None
    case Some(i) => if i == 0 then None else Some(name[i + 1..])
  }

  /** The soundness half of `Extension`: the path has a file name, and the
      extension is its dot-free tail right after a dot that is not the
      name's first character. (`FileName` places that name at the end of
      the path.) */
  lemma ExtensionSound(p: string, e: string)
    requires Extension(p) == Some(e)
    ensures FileName(p).Some?
    ensures var name := FileName(p).value;
      && '.' !in e && '/' !in e
      && |e| + 1 < |name| && name[|name| - |e| - 1] == '.'
      && name[|name| - |e|..] == e
  {
    var name := FileName(p).value;
    var i := LastIndex(name, '.').value;
    assert NameExtension(name) == Some(e);
    NameExtensionSound(name, e);
  }

  lemma NameExtensionSound(name: string, e: string)
    requires NameExtension(name) == Some(e) && '/' !in name
    ensures '.' !in e && '/' !in e
    ensures |e| + 1 < |name| && name[|name| - |e| - 1] == '.' && name[|name| - |e|..] == e
  {
    var i := LastIndex(name, '.').value;
    assert e == name[i + 1..];
    assert '/' !in e by {
      forall k | 0 <= k < |e| ensures e[k] != '/' {
        assert e[k] == name[i + 1 + k];
      }
    }
  }

  /** A separator-free name at the end of a path is that path's file name. */
  lemma FileNameOf(dir: string, name: string)
    requires dir == [] || dir[|dir| - 1] == '/'
    requires name != [] && name != "." && name != ".." && '/' !in name
    ensures FileName(dir + name) == Some(name)
  {
    var p := dir + name;
    assert p[|p| - 1] == name[|name| - 1];
    assert TrimSlashes(p) == p;
    assert p[|dir|..] == name;
    if dir == [] {
      assert p == name;
    } else {
      LastIndexAt(p, '/', |dir| - 1);
    }
  }

  /** The completeness half of `Extension`: a name `stem.ext` in some directory
      has extension `ext`. The extension may be empty (`notes.`), as long as
      the name is not `..`. */
  lemma ExtensionOfName(dir: string, stem: string, ext: string)
    requires dir == [] || dir[|dir| - 1] == '/'
    requires stem != [] && '/' !in stem
    requires (ext != [] || stem != ".") && '/' !in ext && '.' !in ext
    ensures Extension(dir + stem + "." + ext) == Some(ext)
  {
    var name := stem + "." + ext;
    assert dir + stem + "." + ext == dir + name;
    assert name[..|stem|] == stem && name[|stem|] == '.' && name[|stem| + 1..] == ext;
    assert '/' !in name by {
      forall k | 0 <= k < |name| ensures name[k] != '/' {
        if k < |stem| {
          assert name[k] == stem[k];
        } else if k > |stem| {
          assert name[k] == ext[k - |stem| - 1];
        }
      }
    }
    assert |name| >= 2;
    assert name != ".." by {
      if ext == [] {
        assert |name| == |stem| + 1;
        assert |stem| != 1 || stem[0] != '.';
      }
    }
    FileNameOf(dir, name);
    LastIndexAt(name, '.', |stem|);
    assert NameExtension(name) == Some(ext);
  }
}
