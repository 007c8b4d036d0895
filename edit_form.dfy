/** The edit page route (`/editz/` followed by a path): the page is the edit
    template with two script lines in front of it, one holding the resolved
    path and one holding the file's current text. */
module EditForm {
  import opened Wrappers
  import opened Paths
  import opened FileSystem

  /** What the handler sends. */
  datatype FormResponse =
    | Form(html: string)   // the edit page, sent as HTML
    | FileNotFound         // "err: file not found", sent as HTML
    | TemplateError        // "Content error: ..." when the template cannot be read
    | Panic                // the request task aborts on an `unwrap`

  const PATH_OPEN: string := "<script>const fpath = \""
  const PATH_CLOSE: string := "\"</script>"
  const CONTENT_OPEN: string := "<script>const fcontent = `"
  const CONTENT_CLOSE: string := "`</script>"

  /** The two script lines; neither the path nor the text is escaped. */
  function Preamble(path: string, content: string): string {
    PATH_OPEN + path + PATH_CLOSE + CONTENT_OPEN + content + CONTENT_CLOSE
  }

  /** The handler's decision. The fragment is unwrapped before anything else,
      so a missing one aborts; any existing path passes the metadata check,
      but only a readable regular file survives the read that follows; the
      template (`./src/views/edit.html`, given here as `template`) is read last. */
  function RenderEditForm(fragment: Option<string>, files: Files, template: Option<string>): (r: FormResponse)
    ensures fragment.None? ==> r == Panic
    ensures r.Form? ==>
      && template.Some? && |template.value| <= |r.html|
      && r.html[|r.html| - |template.value|..] == template.value
    ensures r.Form? || r == TemplateError ==>
      var path := Normalize(fragment.value);
      path in files && files[path].File? && files[path].content.Some?
  {
    match fragment
    case None => Panic
    case Some(f) =>
      var path := Normalize(f);
      if path !in files then FileNotFound
      else if !(files[path].File? && files[path].content.Some?) then Panic
      else match template
        case None => TemplateError
        case Some(t) => Form(Preamble(path, files[path].content.value) + t)
  }

  /** The branch that answers 401 for a missing path cannot be reached: a
      missing fragment aborts at the earlier unwrap. */
  lemma MissingFragmentPanics(files: Files, template: Option<string>)
    ensures RenderEditForm(None, files, template) == Panic
  {
  }

  /** The page is produced exactly when the resolved path is a readable
      regular file and the template can be read. */
  lemma EditFormIff(fragment: string, files: Files, template: Option<string>)
    ensures var path := Normalize(fragment);
      RenderEditForm(Some(fragment), files, template).Form? <==>
        path in files && files[path].File? && files[path].content.Some? && template.Some?
  {
  }

  /** The page is the path's script line, the content's script line and then
      the template, each found at its place: path and text are embedded
      verbatim and the template is untouched. */
  lemma EditFormLayout(fragment: string, files: Files, template: string)
    requires var path := Normalize(fragment); path in files && files[path].File? && files[path].content.Some?
    ensures var path := Normalize(fragment);
      var content := files[path].content.value;
      var page := RenderEditForm(Some(fragment), files, Some(template)).html;
      var at := |PATH_OPEN| + |path| + |PATH_CLOSE| + |CONTENT_OPEN|;
      && |page| == at + |content| + |CONTENT_CLOSE| + |template|
      && page[..|PATH_OPEN|] == PATH_OPEN
      && page[|PATH_OPEN|..|PATH_OPEN| + |path|] == path
      && page[at..at + |content|] == content
      && page[at + |content|..at + |content| + |CONTENT_CLOSE|] == CONTENT_CLOSE
      && page[|page| - |template|..] == template
  {
  }

  /** A missing path is reported, which only happens when `metadata` fails. */
  lemma EditFormMissingFile(fragment: string, files: Files, template: Option<string>)
    requires Normalize(fragment) !in files
    ensures RenderEditForm(Some(fragment), files, template) == FileNotFound
  {
  }

  /** A directory passes the existence check and then aborts on the read. */
  lemma EditFormDirectoryPanics(fragment: string, files: Files, template: Option<string>)
    requires Normalize(fragment) in files && files[Normalize(fragment)].Dir?
    ensures RenderEditForm(Some(fragment), files, template) == Panic
  {
  }
}
