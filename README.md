# notes-archive file browser, modelled in Dafny

The program is a small HTTP file browser written in Rust. It serves a public
root directory, `static`. It registers four routes: `/`, `/file/` followed by a
path, POST `/edit/` followed by a path, and `/editz/` followed by a path
(src/main.rs:90, 152, 237, 239). The project models the last three as pure
decisions over an abstract file system:

- **Browse** (`/file/` followed by a path). The path fragment is resolved under
  the root. That step uses a substring test, not a path-containment test: a
  fragment that mentions `static` anywhere is used unchanged, and any other
  fragment gets `static/` in front of it. The handler then looks up what is at
  that path, with these outcomes:
  - A directory becomes a listing page. The page has a fixed header, an "up"
    link two levels above the *first* entry, one link per entry (the entry's
    full path is both the link target and the visible text) and a fixed
    footer. Each of these lines is followed by `\n<br>`.
  - A file with the `html` extension is sent as it is, as HTML.
  - A file with the `md` extension is rendered from Markdown and sent as HTML.
  - Any other file is sent as it is, as plain text.
  - A failed lookup, a failed read, or a path that is neither a directory nor
    a file gives an error page.
  - An empty directory makes the request panic: the up link is taken from an
    entry that does not exist.
- **Edit page** (`/editz/` followed by a path). The page is the edit template
  with two script lines in front of it. The first holds the resolved path and
  the second holds the file's current text, neither escaped.
- **Edit submission** (POST to `/edit/` followed by a path). The checks run in
  this order:
  - a body that does not parse gives 400;
  - a wrong password gives 403;
  - a missing path gives 401;
  - otherwise the write is attempted: 200 "Ok" on success, 500 on failure.

  The write always truncates and overwrites `./test.txt`, whatever path was
  supplied, and never creates that file.

Modules, one file each:

- `Wrappers`: `Option`.
- `Paths`: substring test, root prefixing, lexical `parent`, `file_name` and
  `extension`.
- `FileSystem`: file system nodes, the write, and the `Disk` class that holds
  the mutable file system.
- `Listing`: lines of the listing page, the body join and its inverse.
- `FileHandler`: the browse route.
- `EditForm`: the edit page.
- `EditGate`: the edit submission.

The file system is a `map` from path strings to `Dir(entries)`, `File(content)`
or `Other`. A path missing from the map is one whose metadata call fails, and a
`None` inside a node is a read that fails.

Code written as loops in the program is modelled as methods with loop
invariants:
- `Listing.RenderDirEntries` pushes one line per entry.
- `Listing.JoinBody` appends each line and a break.

Both are proved equal to specification functions, and the properties are
proved about those functions. The write is a method of the `Disk` class that
changes its `files` map.

Three points of the code that the model keeps as written:
- Every line of the listing, the last one too, is followed by `\n<br>`
  (src/main.rs:113-116).
- The up link is the first entry's grandparent (src/main.rs:34-38).
- In the edit page the 401 branch cannot be reached: the path is unwrapped at
  src/main.rs:156, before the check at src/main.rs:161.

## Model

| member | source | states |
|---|---|---|
| Paths.Contains | src/main.rs:99 | a fragment that starts with `static` contains it, and a fragment shorter than `static` never does |
| Paths.ContainsIff | src/main.rs:99 | the root test holds exactly when `static` occurs at some index of the fragment, anywhere and not just as a prefix |
| Paths.Normalize | src/main.rs:98-101 | the resolved path always contains `static` and always ends with the fragment |
| Paths.NormalizeCases | src/main.rs:98-101 | the fragment is kept unchanged exactly when it contains `static`; otherwise the result is exactly `static/` followed by the fragment |
| Paths.NormalizeIdempotent | src/main.rs:98-101 | resolving an already resolved path changes nothing |
| Paths.SubstringTestAdmitsEscape | src/main.rs:99-101 | every fragment `../static` followed by anything (such as `../static/../../etc/passwd`) is used unchanged and is not placed under `static/` |
| Paths.Parent | src/main.rs:34-35 | there is no parent exactly when the path is empty or only separators (the root); otherwise the parent is a strict prefix of the path |
| Paths.ParentOfJoin | src/main.rs:34 | the parent of a directory entry `dir/name` is `dir` |
| Paths.FileName | src/main.rs:55 | a file name is a non-empty final component without separators, not `.` or `..`, ending the path once trailing separators are dropped |
| Paths.Extension | src/main.rs:54-56 | a path has an extension only when it has a file name, and the extension is shorter than that name by at least a dot and one more character |
| Paths.ExtensionSound | src/main.rs:55 | a path with an extension has a file name; the extension contains no dot or separator and is the tail of that name after a dot that is not the name's first character |
| Paths.ExtensionOfName | src/main.rs:54-56 | a path ending in a name `stem.ext` (non-empty stem, ext without dots, the name not `..`) has extension `ext`, the empty extension of `notes.` included |
| Listing.EntryLinks | src/main.rs:39-43 | one link per entry in the entries' order, each with the entry's full path as both target and text |
| Listing.Rendered | src/main.rs:29-47 | N ≥ 1 entries whose first has a grandparent give N + 3 lines: header first, up link second, the link of entry i at i + 2, footer last |
| Listing.RenderDirEntries | src/main.rs:29-47 | for N ≥ 1 entries whose first has a grandparent, the lines the loop builds are exactly `Rendered(entries)`: N + 3 lines with entry i's link at i + 2 |
| Listing.UpLinkFromFirstOnly | src/main.rs:34-38 | two entry lists with the same first entry get the same up link, whatever else they hold |
| Listing.UpLinkIsParentOfListedDir | src/main.rs:34-36 | when the first entry is `dir/name`, the up link targets the parent of the listed directory `dir` |
| Listing.Joined | src/main.rs:113-116 | the body is empty exactly when there are no lines, and otherwise ends with `\n<br>`: a break follows the last line too |
| Listing.JoinBody | src/main.rs:113-116 | the body the loop builds is every line followed by `\n<br>`, in order |
| Listing.SplitJoined | src/main.rs:113-116 | lines without newlines are recovered from the joined body: splitting inverts joining |
| Listing.JoinedOccurrences | src/main.rs:113-116 | a body joined from newline-free lines contains exactly one `\n<br>` per line |
| Listing.ListingBreaks | src/main.rs:111-116 | the listing body of N newline-free entries contains exactly N + 3 occurrences of `\n<br>` |
| Listing.ListingSplits | src/main.rs:111-116 | the listing body of newline-free entries splits back into exactly the rendered lines |
| FileHandler.Serve | src/main.rs:92-149 | no fragment gives "not found"; a page or a panic needs a resolved path whose metadata succeeds; plain text is exactly the stored content of a file; a panic comes only from a readable directory that cannot be rendered |
| FileHandler.HandleFile | src/main.rs:92-149 | the handler that builds the listing with the two loops answers exactly as the decision `Serve` |
| FileHandler.ResolvedExtension | src/main.rs:125 | prefixing with the root keeps the extension of a fragment naming `stem.ext` |
| FileHandler.ServeHtmlFile | src/main.rs:126-127 | a readable `.html` file is sent as HTML equal to its content |
| FileHandler.ServeMarkdownFile | src/main.rs:128-130 | a readable `.md` file is sent as HTML equal to the Markdown rendering of its content |
| FileHandler.ServeOtherFile | src/main.rs:131-133 | a readable file with any other extension, the empty one included, is sent as plain text equal to its content |
| FileHandler.ServeFileWithoutExtension | src/main.rs:131-133 | a readable file without an extension is sent as plain text equal to its content |
| FileHandler.ServeFileIff | src/main.rs:122-138 | a file body is sent exactly when the resolved path is a readable regular file |
| FileHandler.ServeListing | src/main.rs:108-121 | a listing is sent exactly when the resolved path is a readable, renderable directory; with newline-free entries it has N + 3 breaks and splits back into the rendered lines |
| FileHandler.ServeMissing | src/main.rs:144 | a path whose metadata fails gives the content error page, never a body or listing |
| FileHandler.ServeOther | src/main.rs:139-142 | a path that is neither a directory nor a file gives "Content not found in path" |
| FileHandler.ServeEmptyDirPanics | src/main.rs:34 | listing an empty directory aborts the request |
| FileHandler.ServeReadsOnlyResolvedPath | src/main.rs:98-104 | the answer depends only on what is at the resolved path |
| FileSystem.Truncated | src/main.rs:63-72 | the write succeeds exactly when `./test.txt` exists as a regular file (any other existing node is modelled as a failed open); it then holds exactly the new content and every other path is unchanged |
| FileSystem.Disk.WriteStringToFileTruncate | src/main.rs:63-72 | the disk after the call is `Truncated(old files, content)` on success and unchanged on failure, whatever `fpath` is |
| EditGate.Gate | src/main.rs:199-220 | an unparsed body is malformed; then a wrong password is refused; then a missing path; otherwise the submitted content is authorised |
| EditGate.Post | src/main.rs:198-234 | a reply other than 200 leaves the file system unchanged; no submission adds or removes a path; a 200 reply is "Ok" with `./test.txt` holding the submitted content |
| EditGate.EditFilePost | src/main.rs:198-234 | the reply and the new disk are exactly `Post` of the old disk |
| EditGate.RejectionsChangeNothing | src/main.rs:199-220 | malformed body gives 400, wrong password 403, missing path 401, and any non-200 reply leaves the file system unchanged |
| EditGate.PasswordCheckedBeforePath | src/main.rs:208-220 | a wrong password with no path gives 403, not 401 |
| EditGate.AcceptedIff | src/main.rs:198-234 | the reply is 200 exactly when the body parses, the password matches, a path is given and `./test.txt` is an existing file |
| EditGate.AcceptedWritesTarget | src/main.rs:223-227 | an accepted submission replies "Ok", `./test.txt` then holds exactly the submitted content, and no other path changes or appears |
| EditGate.PathIgnored | src/main.rs:63-64 | two submissions that differ only in the supplied path have the same reply and the same resulting file system |
| EditGate.WriteFailure | src/main.rs:229-233 | an authorised submission against a missing or non-file `./test.txt` gives 500 and changes nothing |
| EditGate.RejectedPostKeepsPages | src/main.rs:208-213 | after a refused or failed submission every browse request is answered as before |
| EditForm.RenderEditForm | src/main.rs:154-190 | a missing path aborts; the page ends with the template verbatim; the page and the template error both need a readable regular file at the resolved path |
| EditForm.MissingFragmentPanics | src/main.rs:155-165 | a missing path aborts at the unwrap, so the 401 reply is never sent |
| EditForm.EditFormIff | src/main.rs:154-190 | the edit page is sent exactly when the resolved path is a readable regular file and the template can be read |
| EditForm.EditFormLayout | src/main.rs:174-186 | the page is the path script line, then the content script line, then the template, with path and content embedded verbatim at known offsets |
| EditForm.EditFormMissingFile | src/main.rs:167-172 | a path whose metadata fails gives "err: file not found" |
| EditForm.EditFormDirectoryPanics | src/main.rs:174-178 | a directory passes the existence check and then aborts on the read |

## Left out

- The routing library, its handler macros, the async runtime, the home route and the listener (src/main.rs:74-90, 151-152, 237-243): these are plumbing. Each route is modelled as a function of its inputs.
- Loading the password from the environment, and the startup panic when it is missing (src/main.rs:77-82): the secret is a parameter. The handler re-reads the variable on every request (src/main.rs:209). A panic if the variable disappears later is not modelled.
- The Markdown renderer (src/main.rs:58-60): a function parameter with no properties.
- JSON parsing of the submission body (src/main.rs:199): the body is given already parsed, `None` when parsing fails.
- The debug text of parser and I/O errors (`{:?}`) and all `println!` logging: error replies keep only their fixed text.
- Real file system calls (src/main.rs:12-17, 49-52, 63-72): they are replaced by a map keyed by path strings, with no canonicalisation. `./test.txt` and `test.txt` are different keys, and symbolic links are not modelled.
- Failed reads: why a read fails (permissions, text that is not UTF-8) is not modelled. In the edit page, reading something that is neither a file nor a directory is modelled as a failed read.
- FileSystem.Disk.WriteStringToFileTruncate: when the open succeeds the write is modelled as complete. Not modelled: permission errors on open, a write that fails after the truncation (which would leave the file empty), and a short write, whose byte count the program ignores.
- FileSystem.Truncated: an existing node at `./test.txt` that is neither a file nor a directory is treated as a failed open. The program's open succeeds on a character device such as `/dev/null`, which gives 200 "Ok", and blocks on a FIFO until a reader appears.
- EditGate.AcceptedIff: the 200 condition inherits the treatment of a non-file `./test.txt` as a failed open from `FileSystem.Truncated`.
- EditGate.WriteFailure: the 500 reply for a non-file target inherits the same simplification. A device target gives 200 in the program, and a FIFO target blocks.
- Rust's `Path` component rules are reduced to splitting on `/`. Not modelled: dropping every `.` component after the first, trailing ones included (Rust gives `x.md/.` the file name `x.md` and extension `md`, where the model gives none, and gives `a/.` the parent `""`, where the model gives `a`), Windows prefixes, and the `to_str().unwrap()` panic on non-UTF-8 names (src/main.rs:40-41).
- Listing.ListingBreaks: the count of exactly N + 3 breaks is proved only for entry paths without a newline. A file name containing `\n<br>` adds more breaks to the page.
- Concurrent requests and last-write-wins between concurrent submissions: not modelled.
- Not modelled because the code does not do them: confining paths to the root, deriving the up link from the requested directory, writing to the supplied path, and a consistent set of status codes.
