/** The directory listing page: the list of HTML lines built from a
    directory's entries, and the response body that joins them. */
module Listing {
  import opened Wrappers
  import opened Paths

  // The two fixed blocks are spelled in short pieces, which lets the verifier
  // see character by character that they hold no newline.
  const HEAD: string := "<h2>Divine archive " + "of Tengri</h2>" + "<hr/>" + "<h3>Contents</h3>"
  const FOOTER: string :=
    "<hr>"
    + "<a href=\"https://" + "yusufkaraca.dev\">" + "yusufkaraca.dev   " + "</a>"
    + "<a href=\"https://" + "github.com/" + "xfxpositions/" + "divine-arhive\">" + "source code" + "</a>"

  /** What follows every line of the listing in the response body. */
  const BREAK: string := "\n<br>"

  /** An anchor into the file route, closed (as the page writes it) by a second `<a>`. */
  function Link(target: string, text: string): string {
    "<a href=/file/" + target + ">" + text + "<a>"
  }

  function GrandParent(p: string): Option<string> {
    match Parent(p)
    case None => None
    case Some(d) => Parent(d)
  }

  /** The entries the listing can be built from without a panic: there is a
      first entry, and it has a grandparent. */
  predicate CanRender(entries: seq<string>) {
    |entries| > 0 && GrandParent(entries[0]).Some?
  }

  /** The "up" link, two levels above the first entry. */
  function UpLink(first: string): string
    requires GrandParent(first).Some?
  {
    Link(GrandParent(first).value, "../")
  }

  /** An entry's link: its full path is both the target and the visible text. */
  function EntryLink(entry: string): string {
    Link(entry, entry)
  }

  /** One link per entry, in the entries' order. */
  function EntryLinks(entries: seq<string>): (links: seq<string>)
    ensures |links| == |entries|
    ensures forall i :: 0 <= i < |entries| ==> links[i] == EntryLink(entries[i])
  {
    if entries == [] then []
    else EntryLinks(entries[..|entries| - 1]) + [EntryLink(entries[|entries| - 1])]
  }

  /** The lines of the listing page, one per position. */
  function Rendered(entries: seq<string>): (lines: seq<string>)
    requires CanRender(entries)
    ensures |lines| == |entries| + 3
    ensures lines[0] == HEAD && lines[1] == UpLink(entries[0]) && lines[|lines| - 1] == FOOTER
    ensures forall i :: 0 <= i < |entries| ==> lines[i + 2] == EntryLink(entries[i])
  {
    [HEAD, UpLink(entries[0])] + EntryLinks(entries) + [FOOTER]
  }

  /** `render_dir_entries`: header, up link, one link per entry in order, footer. */
  method RenderDirEntries(entries: seq<string>) returns (list: seq<string>)
    requires CanRender(entries)
    ensures list == Rendered(entries)
    ensures |list| == |entries| + 3
    ensures forall i :: 0 <= i < |entries| ==> list[i + 2] == EntryLink(entries[i])
  {
    list := [HEAD];
    var updir1 := Parent(entries[0]).value;
    var updir2 := Parent(updir1).value;
    list := list + [Link(updir2, "../")];
    for i := 0 to |entries|
      invariant list == [HEAD, UpLink(entries[0])] + EntryLinks(entries[..i])
    {
      var link := entries[i];
      assert entries[..i + 1][..i] == entries[..i];
      list := list + [Link(link, entries[i])];
    }
    assert entries[..|entries|] == entries;
    list := list + [FOOTER];
  }

  /** The up link depends on the first entry alone. */
  lemma UpLinkFromFirstOnly(a: seq<string>, b: seq<string>)
    requires CanRender(a) && CanRender(b) && a[0] == b[0]
    ensures Rendered(a)[1] == Rendered(b)[1]
  {
  }

  /** When the entries are `dir/name` for a listed directory `dir`, the up link
      points at the parent of that directory. */
  lemma UpLinkIsParentOfListedDir(dir: string, name: string)
    requires dir != [] && dir[|dir| - 1] != '/'
    requires name != [] && '/' !in name
    ensures GrandParent(dir + "/" + name) == Parent(dir)
  {
    ParentOfJoin(dir, name);
  }

  /** The response body: every line followed by a break. */
  function Joined(lines: seq<string>): (body: string)
    ensures lines != [] ==> |BREAK| <= |body| && body[|body| - |BREAK|..] == BREAK
    ensures lines == [] <==> body == []
  {
    if lines == [] then "" else lines[0] + BREAK + Joined(lines[1..])
  }

  lemma {:induction false} JoinedSnoc(lines: seq<string>, line: string)
    ensures Joined(lines + [line]) == Joined(lines) + line + BREAK
    decreases |lines|
  {
    if lines == [] {
      assert lines + [line] == [line];
    } else {
      assert (lines + [line])[1..] == lines[1..] + [line];
      JoinedSnoc(lines[1..], line);
    }
  }

  /** The loop of the directory branch that appends each line and a break. */
  method JoinBody(lines: seq<string>) returns (body: string)
    ensures body == Joined(lines)
  {
    body := "";
    for i := 0 to |lines|
      invariant body == Joined(lines[..i])
    {
      assert lines[..i + 1] == lines[..i] + [lines[i]];
      JoinedSnoc(lines[..i], lines[i]);
      body := body + lines[i] + BREAK;
    }
    assert lines[..|lines|] == lines;
  }

  predicate NewlineFree(lines: seq<string>) {
    forall i :: 0 <= i < |lines| ==> '\n' !in lines[i]
  }

  /** Index of the first `c` in `s`. */
  function FirstIndex(s: string, c: char): (r: Option<nat>)
    ensures r.None? <==> c !in s
    ensures r.Some? ==> r.value < |s| && s[r.value] == c && c !in s[..r.value]
  {
    if s == [] then None
    else if s[0] == c then Some(0)
    else
      var r := FirstIndex(s[1..], c);
      assert r.Some? ==> s[..r.value + 1] == [s[0]] + s[1..][..r.value];
      if r.None? then None else Some(r.value + 1)
  }

  lemma {:induction false} FirstIndexAt(s: string, c: char, i: nat)
    requires i < |s| && s[i] == c && c !in s[..i]
    ensures FirstIndex(s, c) == Some(i)
    decreases i
  {
    if i > 0 {
      assert s[0] == s[..i][0];
      assert s[1..][..i - 1] == s[1..i];
      assert s[1..i] <= s[..i][1..];
      FirstIndexAt(s[1..], c, i - 1);
    }
  }

  /** Cuts a body back into its lines: each line runs up to a newline that must
      start a break. */
  function Split(body: string): Option<seq<string>>
    decreases |body|
  {
    if body == [] then Some([])
    else match FirstIndex(body, '\n')
      case None => None
      case Some(i) =>
        if BREAK <= body[i..] then
          match Split(body[i + |BREAK|..])
          case None => None
          case Some(rest) => Some([body[..i]] + rest)
        else None
  }

  /** Lines without newlines are recovered from the body they are joined into. */
  lemma {:induction false} SplitJoined(lines: seq<string>)
    requires NewlineFree(lines)
    ensures Split(Joined(lines)) == Some(lines)
    decreases |lines|
  {
    if lines != [] {
      var body := Joined(lines);
      var first, rest := lines[0], Joined(lines[1..]);
      assert body == first + (BREAK + rest);
      assert body[..|first|] == first;
      assert body[|first|..] == BREAK + rest;
      assert body[|first| + |BREAK|..] == rest;
      FirstIndexAt(body, '\n', |first|);
      assert NewlineFree(lines[1..]) by {
        forall i | 0 <= i < |lines[1..]| ensures '\n' !in lines[1..][i] {
          assert lines[1..][i] == lines[i + 1];
        }
      }
      SplitJoined(lines[1..]);
      assert [first] + lines[1..] == lines;
    }
  }

  /** Number of (possibly overlapping) occurrences of `t` in `s`. */
  function Occurrences(s: string, t: string): nat
    requires t != []
    decreases |s|
  {
    if |s| < |t| then 0
    else (if s[..|t|] == t then 1 else 0) + Occurrences(s[1..], t)
  }

  /** A break starts with a newline, so newline-free text before it adds none. */
  lemma {:induction false} SkipNewlineFree(w: string, s: string)
    requires '\n' !in w
    ensures Occurrences(w + s, BREAK) == Occurrences(s, BREAK)
    decreases |w|
  {
    if w != [] {
      assert (w + s)[0] == w[0];
      assert (w + s)[1..] == w[1..] + s;
      SkipNewlineFree(w[1..], s);
    } else {
      assert w + s == s;
    }
  }

  lemma BreakThen(s: string)
    ensures Occurrences(BREAK + s, BREAK) == 1 + Occurrences(s, BREAK)
  {
    assert (BREAK + s)[..|BREAK|] == BREAK;
    assert (BREAK + s)[1..] == "<br>" + s;
    SkipNewlineFree("<br>", s);
  }

  /** A body joined from newline-free lines holds exactly one break per line. */
  lemma {:induction false} JoinedOccurrences(lines: seq<string>)
    requires NewlineFree(lines)
    ensures Occurrences(Joined(lines), BREAK) == |lines|
    decreases |lines|
  {
    if lines != [] {
      var rest := Joined(lines[1..]);
      assert Joined(lines) == lines[0] + (BREAK + rest);
      SkipNewlineFree(lines[0], BREAK + rest);
      BreakThen(rest);
      assert NewlineFree(lines[1..]) by {
        forall i | 0 <= i < |lines[1..]| ensures '\n' !in lines[1..][i] {
          assert lines[1..][i] == lines[i + 1];
        }
      }
      JoinedOccurrences(lines[1..]);
    }
  }

  lemma PrefixNewlineFree(a: string, b: string)
    requires a <= b && '\n' !in b
    ensures '\n' !in a
  {
    assert forall k :: 0 <= k < |a| ==> a[k] == b[k];
  }

  lemma HeadNewlineFree()
    ensures '\n' !in HEAD
  {
  }

  lemma FooterNewlineFree()
    ensures '\n' !in FOOTER
  {
  }

  lemma LinkNewlineFree(target: string, text: string)
    requires '\n' !in target && '\n' !in text
    ensures '\n' !in Link(target, text)
  {
    var open, close := "<a href=/file/", "<a>";
    assert forall k :: 0 <= k < |open| ==> open[k] != '\n';
    assert forall k :: 0 <= k < |close| ==> close[k] != '\n';
    assert Link(target, text) == open + target + ">" + text + close;
  }

  /** With newline-free entry paths, every line of the page is newline-free. */
  lemma RenderedNewlineFree(entries: seq<string>)
    requires CanRender(entries) && NewlineFree(entries)
    ensures NewlineFree(Rendered(entries))
  {
    var lines := Rendered(entries);
    var up1 := Parent(entries[0]).value;
    var up2 := Parent(up1).value;
    PrefixNewlineFree(up1, entries[0]);
    PrefixNewlineFree(up2, up1);
    HeadNewlineFree();
    FooterNewlineFree();
    assert forall k :: 0 <= k < |"../"| ==> "../"[k] != '\n';
    LinkNewlineFree(up2, "../");
    forall i | 2 <= i < |lines| - 1 ensures '\n' !in lines[i] {
      LinkNewlineFree(entries[i - 2], entries[i - 2]);
    }
  }

  /** A listing of N newline-free entries has exactly N + 3 breaks. */
  lemma ListingBreaks(entries: seq<string>)
    requires CanRender(entries) && NewlineFree(entries)
    ensures Occurrences(Joined(Rendered(entries)), BREAK) == |entries| + 3
  {
    RenderedNewlineFree(entries);
    JoinedOccurrences(Rendered(entries));
  }

  /** A listing body gives back its lines. */
  lemma ListingSplits(entries: seq<string>)
    requires CanRender(entries) && NewlineFree(entries)
    ensures Split(Joined(Rendered(entries))) == Some(Rendered(entries))
  {
    RenderedNewlineFree(entries);
    SplitJoined(Rendered(entries));
  }
}
