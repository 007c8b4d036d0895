/** The edit submission route (POST to `/edit/` followed by a path): parse the
    body, check the password, require a path, then overwrite the write target. */
module EditGate {
  import opened Wrappers
  import opened FileSystem
  import FileHandler

  /** The JSON body `{ "content": ..., "password": ... }` once parsed. */
  datatype Payload = Payload(content: string, password: string)

  /** The outcome of the checks, taken in the handler's order. */
  datatype Verdict =
    | Malformed
    | WrongPassword
    | MissingPath
    | Authorized(content: string)

  /** `body` is the parsed request body (`None` when parsing fails) and `secret`
      is the configured password. The checks run in a fixed order: the body,
      then the password, then the path. */
  function Gate(body: Option<Payload>, secret: string, fpath: Option<string>): (v: Verdict)
    ensures v == Malformed <==> body.None?
    ensures v == WrongPassword <==> body.Some? && body.value.password != secret
    ensures v == MissingPath <==> body.Some? && body.value.password == secret && fpath.None?
    ensures v.Authorized? <==> body.Some? && body.value.password == secret && fpath.Some?
    ensures v.Authorized? ==> v.content == body.value.content
  {
    if body.None? then Malformed
    else if body.value.password != secret then WrongPassword
    else if fpath.None? then MissingPath
    else Authorized(body.value.content)
  }

  datatype Kind = Html | Text

  /** Status, content type and body of the reply. Where the program appends
      the parser's or the file system's error description, only the fixed
      text before it is kept. */
  datatype Reply = Reply(status: int, kind: Kind, text: string)

  const BAD_REQUEST: Reply := Reply(400, Text, "File err: ")
  const FORBIDDEN: Reply := Reply(403, Text, "wrong password maan")
  const NO_PATH: Reply := Reply(401, Html, "err: please provide a file path")
  const OK: Reply := Reply(200, Text, "Ok")
  const WRITE_FAILED: Reply := Reply(500, Text, "some error happened, ")

  datatype Outcome = Outcome(reply: Reply, files: Files)

  /** The whole submission: the reply and the file system afterwards. */
  function Post(files: Files, body: Option<Payload>, secret: string, fpath: Option<string>): (o: Outcome)
    ensures o.reply.status != 200 ==> o.files == files
    ensures o.files.Keys == files.Keys
    ensures o.reply.status == 200 ==>
      o.reply == OK && body.Some? && WRITE_TARGET in o.files && o.files[WRITE_TARGET] == File(Some(body.value.content))
  {
    match Gate(body, secret, fpath)
    case Malformed => Outcome(BAD_REQUEST, files)
    case WrongPassword => Outcome(FORBIDDEN, files)
    case MissingPath => Outcome(NO_PATH, files)
    case Authorized(content) =>
      match Truncated(files, content)
      case None => Outcome(WRITE_FAILED, files)
      case Some(written) => Outcome(OK, written)
  }

  /** The handler as it runs against the host file system. */
  method EditFilePost(disk: Disk, body: Option<Payload>, secret: string, fpath: Option<string>) returns (reply: Reply)
    modifies disk
    ensures Outcome(reply, disk.files) == Post(old(disk.files), body, secret, fpath)
  {
    if body.None? {
      return BAD_REQUEST;
    }
    if body.value.password != secret {
      return FORBIDDEN;
    }
    if fpath.None? {
      return NO_PATH;
    }
    var ok := disk.WriteStringToFileTruncate(fpath.value, body.value.content);
    reply := if ok then OK else WRITE_FAILED;
  }

  /** Each rejection leaves every file as it was and answers with its own status. */
  lemma RejectionsChangeNothing(files: Files, body: Option<Payload>, secret: string, fpath: Option<string>)
    ensures var o := Post(files, body, secret, fpath);
      && (body.None? ==> o.reply.status == 400)
      && (body.Some? && body.value.password != secret ==> o.reply.status == 403)
      && (body.Some? && body.value.password == secret && fpath.None? ==> o.reply.status == 401)
      && (o.reply.status != 200 ==> o.files == files)
  {
  }

  /** The password is checked before the path: a wrong password without a path
      is refused as forbidden, not as a missing path. */
  lemma PasswordCheckedBeforePath(files: Files, content: string, password: string, secret: string)
    requires password != secret
    ensures Post(files, Some(Payload(content, password)), secret, None).reply == FORBIDDEN
  {
  }

  /** A submission is accepted exactly when the body parses, the password
      matches, a path is given and the write target is an existing file. */
  lemma AcceptedIff(files: Files, body: Option<Payload>, secret: string, fpath: Option<string>)
    ensures Post(files, body, secret, fpath).reply.status == 200 <==>
      body.Some? && body.value.password == secret && fpath.Some? && CanOpenForWrite(files)
  {
  }

  /** An accepted submission answers "Ok", leaves the write target holding
      exactly the submitted text, and changes no other path. */
  lemma AcceptedWritesTarget(files: Files, content: string, secret: string, path: string)
    requires CanOpenForWrite(files)
    ensures var o := Post(files, Some(Payload(content, secret)), secret, Some(path));
      && o.reply == OK
      && WRITE_TARGET in o.files && o.files[WRITE_TARGET] == File(Some(content))
      && o.files.Keys == files.Keys
      && forall p :: p in files && p != WRITE_TARGET ==> o.files[p] == files[p]
  {
  }

  /** The supplied path plays no part in what is written: any two paths lead
      to the same reply and the same file system. */
  lemma PathIgnored(files: Files, body: Option<Payload>, secret: string, a: string, b: string)
    ensures Post(files, body, secret, Some(a)) == Post(files, body, secret, Some(b))
  {
  }

  /** An authorised write to a missing target (the file is never created) or a
      non-file fails with 500 and changes nothing. */
  lemma WriteFailure(files: Files, content: string, secret: string, path: string)
    requires !CanOpenForWrite(files)
    ensures Post(files, Some(Payload(content, secret)), secret, Some(path)) == Outcome(WRITE_FAILED, files)
  {
  }

  /** A rejected or failed submission is invisible to the file route: every
      fragment is answered as before. */
  lemma RejectedPostKeepsPages(files: Files, body: Option<Payload>, secret: string, fpath: Option<string>,
                               fragment: Option<string>, markdown: string -> string)
    requires Post(files, body, secret, fpath).reply.status != 200
    ensures FileHandler.Serve(fragment, Post(files, body, secret, fpath).files, markdown)
         == FileHandler.Serve(fragment, files, markdown)
  {
    RejectionsChangeNothing(files, body, secret, fpath);
  }
}
