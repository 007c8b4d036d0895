/** The file route (`/file/` followed by a path): resolve the fragment under the public root, ask
    the file system what is there, and answer with a listing, the file's text
    (as HTML, as rendered Markdown, or as plain text) or an error page. */
module FileHandler {
  import opened Wrappers
  import opened Paths
  import opened FileSystem
  import opened Listing

  /** What the handler sends. The error pages are sent as HTML. */
  datatype Response =
    | ListingPage(html: string)  // a directory's links, sent as HTML
    | HtmlPage(html: string)     // an `.html` file verbatim, or an `.md` file rendered
    | TextPage(text: string)     // any other file verbatim, as plain text
    | ContentError               // "Content error: ..." with the failed call's error
    | NotFound                   // "Content not found in path"
    | Panic                      // the request task aborts (the listing of an empty directory)

  /** The handler's decision, branch by branch: no fragment, failed metadata,
      directory, file, or neither. `markdown` is the Markdown-to-HTML
      renderer. */
  function Serve(fragment: Option<string>, files: Files, markdown: string -> string): (r: Response)
    ensures fragment.None? ==> r == NotFound
    ensures r.ListingPage? || r.HtmlPage? || r.TextPage? || r == Panic ==>
      fragment.Some? && Normalize(fragment.value) in files
    ensures r.TextPage? ==> fragment.Some? && files[Normalize(fragment.value)] == File(Some(r.text))
    ensures r == Panic ==>
      var node := files[Normalize(fragment.value)];
      node.Dir? && node.entries.Some? && !CanRender(node.entries.value)
  {
    match fragment
    case None => NotFound
    case Some(f) =>
      var path := Normalize(f);
      if path !in files then ContentError
      else match files[path]
        case Dir(listing) =>
          (match listing
           case None => ContentError
           case Some(entries) =>
             if CanRender(entries) then ListingPage(Joined(Rendered(entries))) else Panic)
        case File(data) =>
          (match data
           case None => ContentError
           case Some(content) =>
             var ext := Extension(path);
             if ext == Some("html") then HtmlPage(content)
             else if ext == Some("md") then HtmlPage(markdown(content))
             else TextPage(content))
        case Other => NotFound
  }

  /** The handler as the program runs it, building the listing line by line. */
  method HandleFile(disk: Disk, fragment: Option<string>, markdown: string -> string) returns (r: Response)
    ensures r == Serve(fragment, disk.files, markdown)
  {
    if fragment.None? {
      return NotFound;
    }
    var path := Normalize(fragment.value);
    if path !in disk.files {
      return ContentError;
    }
    match disk.files[path]
    case Dir(listing) =>
      if listing.None? {
        r := ContentError;
      } else if !CanRender(listing.value) {
        r := Panic;
      } else {
        var lines := RenderDirEntries(listing.value);
        var body := JoinBody(lines);
        r := ListingPage(body);
      }
    case File(data) =>
      if data.None? {
        r := ContentError;
      } else {
        var ext := Extension(path);
        if ext == Some("html") {
          r := HtmlPage(data.value);
        } else if ext == Some("md") {
          r := HtmlPage(markdown(data.value));
        } else {
          r := TextPage(data.value);
        }
      }
    case Other =>
      r := NotFound;
  }

  /** The fragment names a readable regular file `stem.ext` in some directory. */
  predicate NamesFile(fragment: string, dir: string, stem: string, ext: string, files: Files, content: string) {
    && fragment == dir + stem + "." + ext
    && (dir == [] || dir[|dir| - 1] == '/')
    && stem != [] && '/' !in stem
    && (ext != [] || stem != ".") && '/' !in ext && '.' !in ext
    && Normalize(fragment) in files && files[Normalize(fragment)] == File(Some(content))
  }

  /** The extension of the resolved path is that of the fragment. */
  lemma ResolvedExtension(fragment: string, dir: string, stem: string, ext: string)
    requires fragment == dir + stem + "." + ext
    requires dir == [] || dir[|dir| - 1] == '/'
    requires stem != [] && '/' !in stem
    requires (ext != [] || stem != ".") && '/' !in ext && '.' !in ext
    ensures Extension(Normalize(fragment)) == Some(ext)
  {
    if Contains(fragment, PUBLIC_DIR) {
      ExtensionOfName(dir, stem, ext);
    } else {
      var root := PUBLIC_DIR + "/" + dir;
      assert Normalize(fragment) == root + stem + "." + ext;
      assert root[|root| - 1] == '/';
      ExtensionOfName(root, stem, ext);
    }
  }

  /** An `.html` file is sent as HTML exactly as stored. */
  lemma ServeHtmlFile(fragment: string, dir: string, stem: string, files: Files, content: string, markdown: string -> string)
    requires NamesFile(fragment, dir, stem, "html", files, content)
    ensures Serve(Some(fragment), files, markdown) == HtmlPage(content)
  {
    ResolvedExtension(fragment, dir, stem, "html");
  }

  /** An `.md` file is sent as HTML, rendered from its Markdown. */
  lemma ServeMarkdownFile(fragment: string, dir: string, stem: string, files: Files, content: string, markdown: string -> string)
    requires NamesFile(fragment, dir, stem, "md", files, content)
    ensures Serve(Some(fragment), files, markdown) == HtmlPage(markdown(content))
  {
    ResolvedExtension(fragment, dir, stem, "md");
  }

  /** A file with any other extension, the empty one (`notes.`) included, is
      sent as plain text exactly as stored. */
  lemma ServeOtherFile(fragment: string, dir: string, stem: string, ext: string, files: Files, content: string, markdown: string -> string)
    requires NamesFile(fragment, dir, stem, ext, files, content)
    requires ext != "html" && ext != "md"
    ensures Serve(Some(fragment), files, markdown) == TextPage(content)
  {
    ResolvedExtension(fragment, dir, stem, ext);
    var path := Normalize(fragment);
    assert Extension(path) != Some("html") && Extension(path) != Some("md");
  }

  /** A file whose name has no extension is sent as plain text too. */
  lemma ServeFileWithoutExtension(fragment: string, files: Files, content: string, markdown: string -> string)
    requires Normalize(fragment) in files && files[Normalize(fragment)] == File(Some(content))
    requires Extension(Normalize(fragment)).None?
    ensures Serve(Some(fragment), files, markdown) == TextPage(content)
  {
  }

  /** The response carries a file's content exactly when the resolved path is a
      readable regular file; a failed lookup, a directory or anything else
      never does. */
  lemma ServeFileIff(fragment: string, files: Files, markdown: string -> string)
    ensures var r := Serve(Some(fragment), files, markdown);
      var path := Normalize(fragment);
      (r.HtmlPage? || r.TextPage?) <==> path in files && files[path].File? && files[path].content.Some?
  {
  }

  /** A listing comes back exactly when the resolved path is a readable
      directory whose entries can be rendered; it then has one break per line,
      N + 3 in all, and cuts back into those lines. */
  lemma ServeListing(fragment: string, files: Files, markdown: string -> string)
    ensures var r := Serve(Some(fragment), files, markdown);
      var path := Normalize(fragment);
      r.ListingPage? <==> path in files && files[path].Dir? && files[path].entries.Some? && CanRender(files[path].entries.value)
    ensures var r := Serve(Some(fragment), files, markdown);
      var path := Normalize(fragment);
      r.ListingPage? && NewlineFree(files[path].entries.value) ==>
        && Occurrences(r.html, BREAK) == |files[path].entries.value| + 3
        && Split(r.html) == Some(Rendered(files[path].entries.value))
  {
    var path := Normalize(fragment);
    if path in files && files[path].Dir? && files[path].entries.Some? {
      var entries := files[path].entries.value;
      if CanRender(entries) && NewlineFree(entries) {
        ListingBreaks(entries);
        ListingSplits(entries);
      }
    }
  }

  /** A missing path yields an error page, never content or a listing. */
  lemma ServeMissing(fragment: string, files: Files, markdown: string -> string)
    requires Normalize(fragment) !in files
    ensures Serve(Some(fragment), files, markdown) == ContentError
  {
  }

  /** A path that is neither a directory nor a file yields "not found". */
  lemma ServeOther(fragment: string, files: Files, markdown: string -> string)
    requires Normalize(fragment) in files && files[Normalize(fragment)] == Other
    ensures Serve(Some(fragment), files, markdown) == NotFound
  {
  }

  /** The up link is taken from the first entry, so an empty directory aborts
      the request rather than listing nothing. */
  lemma ServeEmptyDirPanics(fragment: string, files: Files, markdown: string -> string)
    requires Normalize(fragment) in files && files[Normalize(fragment)] == Dir(Some([]))
    ensures Serve(Some(fragment), files, markdown) == Panic
  {
  }

  /** Only the entry at the resolved path is consulted. */
  lemma ServeReadsOnlyResolvedPath(fragment: string, a: Files, b: Files, markdown: string -> string)
    requires var path := Normalize(fragment); (path in a <==> path in b) && (path in a ==> a[path] == b[path])
    ensures Serve(Some(fragment), a, markdown) == Serve(Some(fragment), b, markdown)
  {
  }
}
