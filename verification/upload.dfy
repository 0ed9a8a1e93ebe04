/**
 * server.cpp, handlePostRequest: the upload handler behind POST /uploads.
 * It answers with a reply and leaves behind a list of file writes; opening a
 * file for writing can fail, which is given by the set of paths that cannot
 * be opened.
 */
module Upload {
  import opened Text
  import opened Responses
  import Config

  /** One ofstream write: overwrite (binary part files) or append (form and JSON data). */
  datatype Write = Write(path: string, data: string, append: bool)

  /** The reply sent and the writes done before it, in order. */
  datatype Outcome = Outcome(reply: Reply, writes: seq<Write>)

  const UploadsUri: string := "/uploads"
  const FormFile: string := Config.Root + "/uploads/data.txt"
  const JsonFile: string := Config.Root + "/uploads/data.json"
  const PartPrefix: string := Config.Root + "/uploads/uploaded_file_"

  const FormSaved: string := "Data successfully uploaded and saved.\n"
  const JsonSaved: string := "JSON data successfully uploaded and saved."
  const PartsSaved: string := "File(s) successfully uploaded and saved."

  /** The 200 reply after the last part is saved. */
  const PartsSavedReply: Reply := Ok(PartsSaved, "text/plain")

  /** One more than the largest size_t (64 bits). */
  const SizeLimit: nat := 0x1_0000_0000_0000_0000

  /** The file a part is saved to: the prefix and the scan position, in decimal. */
  function PartFileName(pos: nat): (name: string)
    ensures IsPartName(name)
  {
    PartPrefix + Decimal(pos)
  }

  /**
   * `body.substr(partStart, fileDataEnd - partStart)` with fileDataEnd =
   * partEnd - 2, all in size_t: the length wraps modulo 2^64 and substr
   * stops at the end of the body.
   */
  function PartData(body: string, partStart: nat, partEnd: nat): (d: string)
    requires partStart <= |body|
    ensures partStart + |d| <= |body|
  {
    var length := (partEnd - 2 - partStart) % SizeLimit;
    body[partStart..Min(partStart + length, |body|)]
  }

  /** `body.substr(pos, 2) == "--"`: the boundary just passed was the closing one. */
  predicate ClosingDashes(body: string, pos: nat)
    requires pos <= |body|
  {
    body[pos..Min(pos + 2, |body|)] == "--"
  }

  /** What one pass of the multipart loop does: stop with an outcome, or save a part and go on. */
  datatype Step = Stop(outcome: Outcome) | Saved(write: Write, next: nat)

  /**
   * One pass of the multipart loop at scan position `pos`: find the end of
   * the part's headers, then the next boundary; the bytes in between (less
   * the CRLF before the boundary) go to uploaded_file_<pos>. After a
   * boundary followed by "--" the loop stops with the 200 reply; otherwise it
   * goes on two characters past the boundary.
   */
  function PartStep(body: string, boundary: string, pos: nat, unwritable: set<string>): (s: Step)
    requires boundary != []
    ensures s.Saved? ==> pos < s.next <= |body| + 2
    ensures s.Saved? ==> s.write.path == PartFileName(pos) && !s.write.append
    ensures s.Stop? ==> s.outcome.reply in {BadRequest, InternalError, PartsSavedReply}
    ensures s.Stop? ==> (s.outcome.writes != [] <==> s.outcome.reply.Ok?)
    ensures s.Stop? && s.outcome.writes != [] ==>
              |s.outcome.writes| == 1 && s.outcome.writes[0].path == PartFileName(pos) && !s.outcome.writes[0].append
  {
    match Find(body, "\r\n\r\n", pos)
    case None => Stop(Outcome(BadRequest, []))
    case Some(headerEnd) =>
      match Find(body, boundary, headerEnd + 4)
      case None => Stop(Outcome(BadRequest, []))
      case Some(partEnd) => SavePart(body, boundary, pos, headerEnd + 4, partEnd, unwritable)
  }

  /**
   * The rest of a pass once the part's data start and the next boundary are
   * found: save the data to uploaded_file_<pos>, then stop after a closing
   * boundary or go on two characters past it.
   */
  function SavePart(body: string, boundary: string, pos: nat, partStart: nat, partEnd: nat, unwritable: set<string>)
    : (s: Step)
    requires pos < partStart <= partEnd && partEnd + |boundary| <= |body| && boundary != []
    ensures s.Saved? ==> pos < s.next <= |body| + 2
    ensures s.Saved? ==> s.write.path == PartFileName(pos) && !s.write.append
    ensures s.Stop? ==> s.outcome.reply in {InternalError, PartsSavedReply}
    ensures s.Stop? ==> (s.outcome.writes != [] <==> s.outcome.reply.Ok?)
    ensures s.Stop? && s.outcome.writes != [] ==>
              |s.outcome.writes| == 1 && s.outcome.writes[0].path == PartFileName(pos) && !s.outcome.writes[0].append
  {
    var name := PartFileName(pos);
    if name in unwritable then Stop(Outcome(InternalError, []))
    else
      var saved := Write(name, PartData(body, partStart, partEnd), false);
      var next := partEnd + |boundary|;
      if ClosingDashes(body, next) then Stop(Outcome(PartsSavedReply, [saved]))
      else Saved(saved, next + 2)
  }

  /** The multipart loop from scan position `pos` to its end. */
  function ScanParts(body: string, boundary: string, pos: nat, unwritable: set<string>): (o: Outcome)
    requires boundary != []
    ensures o.reply in {BadRequest, InternalError, PartsSavedReply}
    ensures o.reply.Ok? ==> o.writes != []
    decreases |body| + 2 - pos
  {
    match PartStep(body, boundary, pos, unwritable)
    case Stop(outcome) => outcome
    case Saved(write, next) => After([write], ScanParts(body, boundary, next, unwritable))
  }

  /** An outcome preceded by writes done earlier. */
  function After(written: seq<Write>, o: Outcome): (r: Outcome)
    ensures r.reply == o.reply && |r.writes| == |written| + |o.writes|
  {
    Outcome(o.reply, written + o.writes)
  }

  /** Writes done earlier, then more writes, then the rest. */
  lemma {:induction false} AfterAfter(a: seq<Write>, b: seq<Write>, o: Outcome)
    ensures After(a, After(b, o)) == After(a + b, o)
  {
    assert a + (b + o.writes) == (a + b) + o.writes;
  }

  /** One pass of the multipart loop, as the source runs it: the imperative form of PartStep, and proved equal to it. */
  method NextPart(body: string, boundary: string, currentPos: nat, unwritable: set<string>) returns (s: Step)
    requires boundary != []
    ensures s == PartStep(body, boundary, currentPos, unwritable)
  {
    var headerEnd := Find(body, "\r\n\r\n", currentPos);
    if headerEnd.None? {
      return Stop(Outcome(BadRequest, []));
    }
    var partStart := headerEnd.value + 4;
    var partEnd := Find(body, boundary, partStart);
    if partEnd.None? {
      return Stop(Outcome(BadRequest, []));
    }
    var partData := PartData(body, partStart, partEnd.value);
    var filename := PartFileName(currentPos);
    if filename in unwritable {
      return Stop(Outcome(InternalError, []));
    }
    var saved := Write(filename, partData, false);
    var next := partEnd.value + |boundary|;
    if ClosingDashes(body, next) {
      return Stop(Outcome(PartsSavedReply, [saved]));
    }
    return Saved(saved, next + 2);
  }

  /** The multipart loop of handlePostRequest, run from scan position `start`. */
  method SaveParts(body: string, boundary: string, start: nat, unwritable: set<string>) returns (o: Outcome)
    requires boundary != []
    ensures o == ScanParts(body, boundary, start, unwritable)
  {
    var currentPos := start;
    var written: seq<Write> := [];
    assert After([], ScanParts(body, boundary, start, unwritable)) == ScanParts(body, boundary, start, unwritable);
    while true
      invariant After(written, ScanParts(body, boundary, currentPos, unwritable)) == ScanParts(body, boundary, start, unwritable)
      decreases |body| + 2 - currentPos
    {
      var step := NextPart(body, boundary, currentPos, unwritable);
      match step
      case Stop(outcome) =>
        return After(written, outcome);
      case Saved(saved, next) =>
        AfterAfter(written, [saved], ScanParts(body, boundary, next, unwritable));
        written := written + [saved];
        currentPos := next;
    }
  }

  /** The boundary handlePostRequest searches for: "--" and everything after "boundary=". */
  function Boundary(contentType: string): (b: Option<string>)
    ensures b.Some? ==> |b.value| >= 2 && b.value[..2] == "--"
    ensures b.None? <==> !Contains(contentType, "boundary=")
    ensures b.Some? ==>
              exists i: nat :: && OccursAt(contentType, "boundary=", i)
                          && (forall k :: 0 <= k < i ==> !OccursAt(contentType, "boundary=", k))
                          && b.value == "--" + contentType[i + 9..]
  {
    match Find(contentType, "boundary=", 0)
    case None => None
    case Some(i) =>
      FindIsFirst(contentType, "boundary=", 0);
      Some("--" + contentType[i + 9..])
  }

  /** The multipart branch: find the boundary in Content-Type and in the body, then scan the parts. */
  function Multipart(contentType: string, body: string, unwritable: set<string>): (o: Outcome)
    ensures o.reply in {BadRequest, InternalError, PartsSavedReply}
    ensures o.reply.Ok? ==> o.writes != []
  {
    match Boundary(contentType)
    case None => Outcome(BadRequest, [])
    case Some(boundary) =>
      match Find(body, boundary, 0)
      case None => Outcome(BadRequest, [])
      case Some(first) => ScanParts(body, boundary, first + |boundary| + 2, unwritable)
  }

  /** The Content-Type value the handler works with: the header's value, blanks trimmed. */
  function RequestContentType(headers: map<string, string>): (ct: string)
    ensures "Content-Type" !in headers ==> ct == []
    ensures ct == [] || (!IsBlank(ct[0]) && !IsBlank(ct[|ct| - 1]))
  {
    var value := if "Content-Type" in headers then headers["Content-Type"] else "";
    TrimmedEnds(value);
    Trim(value)
  }

  /** The uri as handlePostRequest compares it: blanks trimmed, then lower-cased. */
  function NormalizeUri(uri: string): (n: string)
    ensures |n| <= |uri|
    ensures forall k :: 0 <= k < |n| ==> !('A' <= n[k] <= 'Z')
    ensures n == [] || (!IsBlank(n[0]) && !IsBlank(n[|n| - 1]))
  {
    var t := Trim(uri);
    TrimmedEnds(uri);
    if t != [] then
      LowerCharKeeps(t[0]);
      LowerCharKeeps(t[|t| - 1]);
      ToLower(t)
    else ToLower(t)
  }

  /** The kinds of upload handlePostRequest tells apart by Content-Type. */
  datatype Kind = Form | Json | MultipartForm | Unsupported

  /**
   * The Content-Type tests, case-sensitive substring searches made in this
   * order: form data, JSON, multipart; anything else is unsupported.
   */
  function KindOf(contentType: string): (k: Kind)
    ensures k == Form <==> Contains(contentType, "application/x-www-form-urlencoded")
    ensures k == Json <==>
              !Contains(contentType, "application/x-www-form-urlencoded") && Contains(contentType, "application/json")
    ensures k == MultipartForm <==>
              && !Contains(contentType, "application/x-www-form-urlencoded")
              && !Contains(contentType, "application/json")
              && Contains(contentType, "multipart/form-data")
    ensures k == Unsupported ==> !Contains(contentType, "multipart/form-data")
  {
    if Contains(contentType, "application/x-www-form-urlencoded") then Form
    else if Contains(contentType, "application/json") then Json
    else if Contains(contentType, "multipart/form-data") then MultipartForm
    else Unsupported
  }

  /**
   * The body of handlePostRequest once the uri is "/uploads": form data and
   * JSON are appended, with a newline, to data.txt and data.json; an empty
   * JSON body is a 400; a file that cannot be opened is a 500; multipart
   * parts are saved one by one; any other Content-Type is a 400.
   */
  function SaveUpload(contentType: string, body: string, unwritable: set<string>): (o: Outcome)
    ensures o.reply.Ok? || o.reply == BadRequest || o.reply == InternalError
    ensures o.reply.Ok? ==> o.writes != []
  {
    match KindOf(contentType)
    case Form =>
      if FormFile in unwritable then Outcome(InternalError, [])
      else Outcome(Ok(FormSaved, "text/plain"), [Write(FormFile, body + "\n", true)])
    case Json =>
      if body == [] then Outcome(BadRequest, [])
      else if JsonFile in unwritable then Outcome(InternalError, [])
      else Outcome(Ok(JsonSaved, "application/json"), [Write(JsonFile, body + "\n", true)])
    case MultipartForm => Multipart(contentType, body, unwritable)
    case Unsupported => Outcome(BadRequest, [])
  }

  /**
   * handlePostRequest: anything but "/uploads", once normalised, is a 404
   * naming the normalised uri and writing nothing; otherwise the reply is
   * 200, 400 or 500, and a 200 always follows at least one write.
   */
  function HandlePost(uri: string, body: string, headers: map<string, string>, unwritable: set<string>): (o: Outcome)
    ensures NormalizeUri(uri) != UploadsUri ==> o == Outcome(NotFound(NormalizeUri(uri)), [])
    ensures NormalizeUri(uri) == UploadsUri ==> o.reply.Ok? || o.reply == BadRequest || o.reply == InternalError
    ensures o.reply.Ok? ==> o.writes != []
  {
    if NormalizeUri(uri) != UploadsUri then Outcome(NotFound(NormalizeUri(uri)), [])
    else SaveUpload(RequestContentType(headers), body, unwritable)
  }

  /** The multipart branch of handlePostRequest, as the source runs it: the imperative form of Multipart, and proved equal to it. */
  method SaveMultipart(contentType: string, body: string, unwritable: set<string>) returns (o: Outcome)
    ensures o == Multipart(contentType, body, unwritable)
  {
    var boundaryPos := Find(contentType, "boundary=", 0);
    if boundaryPos.None? {
      return Outcome(BadRequest, []);
    }
    var boundary := "--" + contentType[boundaryPos.value + 9..];
    var first := Find(body, boundary, 0);
    if first.None? {
      return Outcome(BadRequest, []);
    }
    o := SaveParts(body, boundary, first.value + |boundary| + 2, unwritable);
  }

  /**
   * handlePostRequest as the source runs it, normalising its two strings in
   * place: the imperative form of HandlePost, and proved equal to it.
   */
  method HandlePostRequest(uri: string, body: string, headers: map<string, string>, unwritable: set<string>)
    returns (o: Outcome)
    ensures o == HandlePost(uri, body, headers, unwritable)
  {
    var normalizedUri := uri;
    normalizedUri := TrimLeading(normalizedUri);
    normalizedUri := TrimTrailing(normalizedUri);
    normalizedUri := ToLower(normalizedUri);
    var contentType := if "Content-Type" in headers then headers["Content-Type"] else "";
    contentType := TrimLeading(contentType);
    contentType := TrimTrailing(contentType);
    assert normalizedUri == NormalizeUri(uri);
    if normalizedUri != UploadsUri {
      return Outcome(NotFound(normalizedUri), []);
    }
    assert contentType == RequestContentType(headers);
    o := SaveUploadRequest(contentType, body, unwritable);
  }

  /**
   * The part of handlePostRequest that runs once the uri is "/uploads", as
   * the source runs it: the imperative form of SaveUpload, and proved equal
   * to it.
   */
  method SaveUploadRequest(contentType: string, body: string, unwritable: set<string>) returns (o: Outcome)
    ensures o == SaveUpload(contentType, body, unwritable)
  {
    if Contains(contentType, "application/x-www-form-urlencoded") {
      if FormFile in unwritable {
        return Outcome(InternalError, []);
      }
      return Outcome(Ok(FormSaved, "text/plain"), [Write(FormFile, body + "\n", true)]);
    } else if Contains(contentType, "application/json") {
      if body == [] {
        return Outcome(BadRequest, []);
      }
      if JsonFile in unwritable {
        return Outcome(InternalError, []);
      }
      return Outcome(Ok(JsonSaved, "application/json"), [Write(JsonFile, body + "\n", true)]);
    } else if Contains(contentType, "multipart/form-data") {
      o := SaveMultipart(contentType, body, unwritable);
      return;
    }
    return Outcome(BadRequest, []);
  }

  // ---------------------------------------------------------------------------
  // What the writes do to the files

  /** The files after one write: overwrite replaces the contents, append adds to them. */
  function ApplyWrite(files: map<string, string>, w: Write): (r: map<string, string>)
    ensures r.Keys == files.Keys + {w.path}
    ensures r[w.path] == (if w.append && w.path in files then files[w.path] else "") + w.data
    ensures forall path :: path in files && path != w.path ==> r[path] == files[path]
  {
    var before := if w.append && w.path in files then files[w.path] else "";
    files[w.path := before + w.data]
  }

  function ApplyWrites(files: map<string, string>, ws: seq<Write>): map<string, string>
    decreases |ws|
  {
    if ws == [] then files else ApplyWrites(ApplyWrite(files, ws[0]), ws[1..])
  }

  /** A single appending write adds its data to the end of the file, creating it when missing. */
  lemma {:induction false} AppendOnce(files: map<string, string>, path: string, data: string)
    ensures ApplyWrites(files, [Write(path, data, true)])
            == files[path := (if path in files then files[path] else "") + data]
  {
    assert [Write(path, data, true)][1..] == [];
  }

  // ---------------------------------------------------------------------------
  // Part files

  /** A path of the form <uploads>/uploaded_file_<digits>. */
  predicate IsPartName(path: string)
  {
    |PartPrefix| < |path| && path[..|PartPrefix|] == PartPrefix && AllDigits(path[|PartPrefix|..])
  }

  /** The scan position a part file is named after. */
  function PartOffset(path: string): nat
    requires IsPartName(path)
  {
    DigitsValue(path[|PartPrefix|..])
  }

  /** A part file name gives back the scan position it was made from. */
  lemma {:induction false} PartNameRoundTrip(pos: nat)
    ensures IsPartName(PartFileName(pos)) && PartOffset(PartFileName(pos)) == pos
  {
    var name := PartFileName(pos);
    assert name[|PartPrefix|..] == Decimal(pos);
    DecimalRoundTrip(pos);
  }

  /** Parts found at different scan positions go to different files. */
  lemma {:induction false} PartNamesDistinct(p: nat, q: nat)
    requires p != q
    ensures PartFileName(p) != PartFileName(q)
  {
    PartNameRoundTrip(p);
    PartNameRoundTrip(q);
  }

  /**
   * Writes to part files only, each overwriting its file, named after scan
   * positions at or after `pos` that strictly increase from one write to the next.
   */
  predicate PartWrites(ws: seq<Write>, pos: nat)
  {
    && (forall i :: 0 <= i < |ws| ==> IsPartName(ws[i].path) && !ws[i].append && pos <= PartOffset(ws[i].path))
    && (forall i, j :: 0 <= i < j < |ws| ==> PartOffset(ws[i].path) < PartOffset(ws[j].path))
  }

  /** A part saved at `pos`, followed by parts saved from a later position. */
  lemma {:induction false} PartWritesCons(w: Write, more: seq<Write>, pos: nat, next: nat)
    requires w.path == PartFileName(pos) && !w.append
    requires PartWrites(more, next) && pos < next
    ensures PartWrites([w] + more, pos)
  {
    PartNameRoundTrip(pos);
    var ws := [w] + more;
    forall i | 0 <= i < |ws|
      ensures IsPartName(ws[i].path) && !ws[i].append && pos <= PartOffset(ws[i].path)
    {
      if i > 0 {
        assert ws[i] == more[i - 1];
      }
    }
    forall i, j | 0 <= i < j < |ws|
      ensures PartOffset(ws[i].path) < PartOffset(ws[j].path)
    {
      assert ws[j] == more[j - 1];
      if i > 0 {
        assert ws[i] == more[i - 1];
      }
    }
  }

  /**
   * Every file the multipart loop writes is a part file, overwritten rather
   * than appended to, and the scan positions the files are named after
   * strictly increase: no part overwrites another.
   */
  lemma {:induction false} ScanPartsNames(body: string, boundary: string, pos: nat, unwritable: set<string>)
    requires boundary != []
    ensures PartWrites(ScanParts(body, boundary, pos, unwritable).writes, pos)
    decreases |body| + 2 - pos
  {
    var step := PartStep(body, boundary, pos, unwritable);
    if step.Saved? {
      ScanPartsNames(body, boundary, step.next, unwritable);
      PartWritesCons(step.write, ScanParts(body, boundary, step.next, unwritable).writes, pos, step.next);
    } else if step.outcome.writes != [] {
      PartWritesCons(step.outcome.writes[0], [], pos, pos + 1);
      assert step.outcome.writes == [step.outcome.writes[0]] + [];
    }
  }

  /** Different part writes of one scan go to different files. */
  lemma {:induction false} PartWritesDistinct(ws: seq<Write>, pos: nat, i: nat, j: nat)
    requires PartWrites(ws, pos) && i < j < |ws|
    ensures ws[i].path != ws[j].path
  {
  }

  /** A part ended by CRLF and the boundary is saved without that CRLF. */
  lemma {:induction false} PartDataBeforeCrlf(body: string, partStart: nat, partEnd: nat)
    requires partStart + 2 <= partEnd <= |body| < SizeLimit
    ensures PartData(body, partStart, partEnd) == body[partStart..partEnd - 2]
  {
  }

  /**
   * A boundary found less than two characters after the part's headers
   * makes the size_t length wrap: the part saved is everything to the end
   * of the body (for any body shorter than 2^64 - 2).
   */
  lemma {:induction false} PartDataWraps(body: string, partStart: nat, partEnd: nat)
    requires partStart <= partEnd < partStart + 2 && partStart <= |body| < SizeLimit - 2
    ensures PartData(body, partStart, partEnd) == body[partStart..]
  {
    assert (partEnd - 2 - partStart) % SizeLimit == SizeLimit + partEnd - 2 - partStart;
  }

  // ---------------------------------------------------------------------------
  // The handler as a whole

  /**
   * An upload that fails leaves behind at most part files, each written
   * once: the form and JSON files are written only on success, while parts
   * saved before a multipart failure stay written.
   */
  lemma {:induction false} FailureWritesOnlyParts(contentType: string, body: string, unwritable: set<string>)
    ensures var o := SaveUpload(contentType, body, unwritable);
            !o.reply.Ok? ==> PartWrites(o.writes, 0)
  {
    if KindOf(contentType) == MultipartForm {
      MultipartWritesParts(contentType, body, unwritable);
    }
  }

  /** The multipart branch writes part files only, each once. */
  lemma {:induction false} MultipartWritesParts(contentType: string, body: string, unwritable: set<string>)
    ensures PartWrites(Multipart(contentType, body, unwritable).writes, 0)
  {
    match Boundary(contentType)
    case None =>
    case Some(boundary) =>
      match Find(body, boundary, 0)
      case None =>
      case Some(first) =>
        ScanPartsNames(body, boundary, first + |boundary| + 2, unwritable);
  }

  /** An empty JSON body is refused before any file is opened. */
  lemma {:induction false} EmptyJsonIs400(uri: string, headers: map<string, string>, unwritable: set<string>)
    requires NormalizeUri(uri) == UploadsUri
    requires KindOf(RequestContentType(headers)) == Json
    ensures HandlePost(uri, [], headers, unwritable) == Outcome(BadRequest, [])
  {
  }

  /** A Content-Type none of the three tests accepts gets 400, and nothing is written. */
  lemma {:induction false} UnsupportedIs400(uri: string, body: string, headers: map<string, string>, unwritable: set<string>)
    requires NormalizeUri(uri) == UploadsUri
    requires KindOf(RequestContentType(headers)) == Unsupported
    ensures HandlePost(uri, body, headers, unwritable) == Outcome(BadRequest, [])
  {
  }

  /** Form data or a non-empty JSON body whose file cannot be opened gets 500, and nothing is written. */
  lemma {:induction false} UnwritableIs500(uri: string, body: string, headers: map<string, string>, unwritable: set<string>)
    requires NormalizeUri(uri) == UploadsUri
    requires || (KindOf(RequestContentType(headers)) == Form && FormFile in unwritable)
             || (KindOf(RequestContentType(headers)) == Json && body != [] && JsonFile in unwritable)
    ensures HandlePost(uri, body, headers, unwritable) == Outcome(InternalError, [])
  {
  }

  /**
   * Form data sent to "/uploads" while data.txt can be opened gets 200, and
   * the body is appended to data.txt, followed by a newline; no other file
   * changes.
   */
  lemma {:induction false} FormDataAppended(uri: string, body: string, headers: map<string, string>, unwritable: set<string>,
                         files: map<string, string>)
    requires NormalizeUri(uri) == UploadsUri && FormFile !in unwritable
    requires KindOf(RequestContentType(headers)) == Form
    ensures HandlePost(uri, body, headers, unwritable).reply == Ok(FormSaved, "text/plain")
    ensures var after := ApplyWrites(files, HandlePost(uri, body, headers, unwritable).writes);
            && FormFile in after
            && after[FormFile] == (if FormFile in files then files[FormFile] else "") + (body + "\n")
            && forall p :: p in files && p != FormFile ==> p in after && after[p] == files[p]
  {
    FormWrites(uri, body, headers, unwritable);
    AppendOnly(files, FormFile, body + "\n", HandlePost(uri, body, headers, unwritable).writes);
  }

  lemma {:induction false} FormWrites(uri: string, body: string, headers: map<string, string>, unwritable: set<string>)
    requires NormalizeUri(uri) == UploadsUri && FormFile !in unwritable
    requires KindOf(RequestContentType(headers)) == Form
    ensures HandlePost(uri, body, headers, unwritable)
            == Outcome(Ok(FormSaved, "text/plain"), [Write(FormFile, body + "\n", true)])
  {
  }

  /**
   * A non-empty JSON body sent to "/uploads" while data.json can be opened
   * gets 200 typed application/json, and the body is appended to data.json,
   * followed by a newline; no other file changes.
   */
  lemma {:induction false} JsonAppended(uri: string, body: string, headers: map<string, string>, unwritable: set<string>,
                     files: map<string, string>)
    requires NormalizeUri(uri) == UploadsUri && body != [] && JsonFile !in unwritable
    requires KindOf(RequestContentType(headers)) == Json
    ensures HandlePost(uri, body, headers, unwritable).reply == Ok(JsonSaved, "application/json")
    ensures var after := ApplyWrites(files, HandlePost(uri, body, headers, unwritable).writes);
            && JsonFile in after
            && after[JsonFile] == (if JsonFile in files then files[JsonFile] else "") + (body + "\n")
            && forall p :: p in files && p != JsonFile ==> p in after && after[p] == files[p]
  {
    JsonWrites(uri, body, headers, unwritable);
    AppendOnly(files, JsonFile, body + "\n", HandlePost(uri, body, headers, unwritable).writes);
  }

  lemma {:induction false} JsonWrites(uri: string, body: string, headers: map<string, string>, unwritable: set<string>)
    requires NormalizeUri(uri) == UploadsUri && body != [] && JsonFile !in unwritable
    requires KindOf(RequestContentType(headers)) == Json
    ensures HandlePost(uri, body, headers, unwritable)
            == Outcome(Ok(JsonSaved, "application/json"), [Write(JsonFile, body + "\n", true)])
  {
  }

  /** A single appending write changes its own file and no other. */
  lemma {:induction false} AppendOnly(files: map<string, string>, path: string, data: string, ws: seq<Write>)
    requires ws == [Write(path, data, true)]
    ensures var after := ApplyWrites(files, ws);
            && path in after
            && after[path] == (if path in files then files[path] else "") + data
            && forall p :: p in files && p != path ==> p in after && after[p] == files[p]
  {
    AppendOnce(files, path, data);
  }

  /** Lower-casing a character never makes or unmakes a blank, and doing it twice changes nothing more. */
  lemma {:induction false} LowerCharKeeps(c: char)
    ensures IsBlank(LowerChar(c)) <==> IsBlank(c)
    ensures LowerChar(LowerChar(c)) == LowerChar(c)
  {
  }

  /** A normalised uri is handled like the original. */
  lemma {:induction false} NormalisedUriSame(uri: string, body: string, headers: map<string, string>, unwritable: set<string>)
    ensures HandlePost(NormalizeUri(uri), body, headers, unwritable) == HandlePost(uri, body, headers, unwritable)
  {
    NormalizeIdempotent(uri);
  }

  /** Normalising a uri a second time changes nothing. */
  lemma {:induction false} NormalizeIdempotent(uri: string)
    ensures NormalizeUri(NormalizeUri(uri)) == NormalizeUri(uri)
  {
    var t := Trim(uri);
    var n := ToLower(t);
    TrimmedEnds(uri);
    if n != [] {
      LowerCharKeeps(t[0]);
      LowerCharKeeps(t[|t| - 1]);
    }
    TrimKeeps(n);
    ToLowerIdempotent(t);
  }

  /** After trimming, neither end of the uri is a blank. */
  lemma {:induction false} TrimmedEnds(s: string)
    ensures var t := Trim(s);
            t == [] || (!IsBlank(t[0]) && !IsBlank(t[|t| - 1]))
  {
    var t := Trim(s);
    if t != [] {
      var l := TrimLeading(s);
      assert t == l[..|t|];
    }
  }

  /** Trimming a string whose ends are not blanks leaves it as it is. */
  lemma {:induction false} TrimKeeps(s: string)
    requires s == [] || (!IsBlank(s[0]) && !IsBlank(s[|s| - 1]))
    ensures Trim(s) == s
  {
    assert TrimLeading(s) == s;
  }

  /** Lower-casing twice is lower-casing once. */
  lemma {:induction false} ToLowerIdempotent(s: string)
    ensures ToLower(ToLower(s)) == ToLower(s)
  {
    var n := ToLower(s);
    forall k | 0 <= k < |n|
      ensures ToLower(n)[k] == n[k]
    {
      LowerCharKeeps(s[k]);
    }
  }

  // ---------------------------------------------------------------------------
  // A multipart body as a browser sends it

  /** The boundary is read from the Content-Type parameter and prefixed with "--". */
  lemma {:induction false} BoundaryParameter(b: string)
    ensures Boundary("multipart/form-data; boundary=" + b) == Some("--" + b)
  {
    var ct := "multipart/form-data; boundary=" + b;
    assert ct == [] + "multipart/form-data; " + "boundary=" + b;
    FindPast([], "multipart/form-data; ", "boundary=", b);
    assert ct[21 + 9..] == b;
  }

  /** Once the boundary and its first occurrence are found, the multipart branch is the loop started past that line. */
  lemma {:induction false} MultipartScans(contentType: string, body: string, unwritable: set<string>, delim: string, first: nat)
    requires Boundary(contentType) == Some(delim) && Find(body, delim, 0) == Some(first)
    ensures delim != []
    ensures Multipart(contentType, body, unwritable) == ScanParts(body, delim, first + |delim| + 2, unwritable)
  {
  }

  /** One part of a multipart body: its header block and its contents. */
  datatype Part = Part(headers: string, contents: string)

  /** One part as it appears in the body, up to and including the delimiter that follows it. */
  function PartText(delim: string, part: Part): string
  {
    part.headers + "\r\n\r\n" + (part.contents + "\r\n") + delim
  }

  /**
   * The parts after the opening delimiter line: each part's headers, a
   * blank line, its contents, CRLF and the delimiter; the delimiter after
   * the last part is followed by "--".
   */
  function PartsText(delim: string, parts: seq<Part>): string
    requires parts != []
    decreases |parts|
  {
    if |parts| == 1 then PartText(delim, parts[0]) + "--\r\n"
    else PartText(delim, parts[0]) + "\r\n" + PartsText(delim, parts[1..])
  }

  /** A multipart/form-data body with boundary parameter `b`. */
  function MultipartBody(b: string, parts: seq<Part>): string
    requires parts != []
  {
    "--" + b + "\r\n" + PartsText("--" + b, parts)
  }

  /**
   * A part that the loop reads back as it was written: the first blank line
   * in its header block and the CRLF-CRLF after it is the one that ends the
   * block, and the first delimiter in its contents, their CRLF and the
   * delimiter after them is that last delimiter. This is what RFC 2046
   * section 5.1.1 asks of a sender choosing a boundary.
   */
  predicate WellFormedPart(delim: string, part: Part)
  {
    && Find(part.headers + "\r\n\r\n", "\r\n\r\n", 0) == Some(|part.headers|)
    && Find(part.contents + "\r\n" + delim, delim, 0) == Some(|part.contents| + 2)
  }

  predicate WellFormedParts(delim: string, parts: seq<Part>)
  {
    forall i :: 0 <= i < |parts| ==> WellFormedPart(delim, parts[i])
  }

  /** Every part has at least one header (RFC 7578 section 4.2 asks for a Content-Disposition header). */
  predicate HeadedParts(parts: seq<Part>)
  {
    forall i :: 0 <= i < |parts| ==> parts[i].headers != []
  }

  lemma {:induction false} PartsTail(delim: string, parts: seq<Part>)
    requires parts != []
    ensures WellFormedParts(delim, parts) ==> WellFormedParts(delim, parts[1..])
    ensures HeadedParts(parts) ==> HeadedParts(parts[1..])
  {
    forall i | 0 <= i < |parts[1..]|
      ensures parts[1..][i] == parts[i + 1]
    {
    }
  }

  /** The contents the writes carry, in order. */
  function SavedData(ws: seq<Write>): seq<string>
  {
    seq(|ws|, i requires 0 <= i < |ws| => ws[i].data)
  }

  /** The contents of the parts, in order. */
  function Contents(parts: seq<Part>): seq<string>
  {
    seq(|parts|, i requires 0 <= i < |parts| => parts[i].contents)
  }

  /** The contents of the first part followed by those of the rest. */
  lemma {:induction false} ContentsCons(parts: seq<Part>)
    requires parts != []
    ensures Contents(parts) == [parts[0].contents] + Contents(parts[1..])
  {
  }

  /** The data of one write followed by that of the rest. */
  lemma {:induction false} SavedCons(w: Write, ws: seq<Write>)
    ensures SavedData([w] + ws) == [w.data] + SavedData(ws)
  {
  }

  /** Saving the first part, then all but the last of the rest, saves all but the last part. */
  lemma {:induction false} SavedDropsLast(w: Write, ws: seq<Write>, parts: seq<Part>)
    requires |parts| > 1 && w.data == parts[0].contents
    requires SavedData(ws) == Contents(parts[1..][..|parts| - 2])
    ensures SavedData([w] + ws) == Contents(parts[..|parts| - 1])
  {
    SavedCons(w, ws);
    ContentsCons(parts[..|parts| - 1]);
    assert parts[..|parts| - 1][1..] == parts[1..][..|parts| - 2];
  }

  /** One pass that finds a part followed by the closing delimiter saves it and stops with the 200 reply. */
  lemma {:induction false} PartStepLast(body: string, delim: string, pos: nat, unwritable: set<string>,
                                        headerEnd: nat, partEnd: nat, data: string)
    requires delim != []
    requires Find(body, "\r\n\r\n", pos) == Some(headerEnd)
    requires Find(body, delim, headerEnd + 4) == Some(partEnd)
    requires PartData(body, headerEnd + 4, partEnd) == data
    requires PartFileName(pos) !in unwritable && ClosingDashes(body, partEnd + |delim|)
    ensures PartStep(body, delim, pos, unwritable) == Stop(Outcome(PartsSavedReply, [Write(PartFileName(pos), data, false)]))
  {
    PartStepFound(body, delim, pos, unwritable, headerEnd, partEnd);
  }

  /** One pass that finds a part followed by another delimiter saves it and goes on two characters later. */
  lemma {:induction false} PartStepNext(body: string, delim: string, pos: nat, unwritable: set<string>,
                                        headerEnd: nat, partEnd: nat, data: string)
    requires delim != []
    requires Find(body, "\r\n\r\n", pos) == Some(headerEnd)
    requires Find(body, delim, headerEnd + 4) == Some(partEnd)
    requires PartData(body, headerEnd + 4, partEnd) == data
    requires PartFileName(pos) !in unwritable && !ClosingDashes(body, partEnd + |delim|)
    ensures PartStep(body, delim, pos, unwritable) == Saved(Write(PartFileName(pos), data, false), partEnd + |delim| + 2)
  {
    PartStepFound(body, delim, pos, unwritable, headerEnd, partEnd);
  }

  /** A pass whose two searches succeed goes on to save the part it found. */
  lemma {:induction false} PartStepFound(body: string, delim: string, pos: nat, unwritable: set<string>,
                                         headerEnd: nat, partEnd: nat)
    requires delim != []
    requires Find(body, "\r\n\r\n", pos) == Some(headerEnd)
    requires Find(body, delim, headerEnd + 4) == Some(partEnd)
    ensures pos < headerEnd + 4 <= partEnd && partEnd + |delim| <= |body|
    ensures PartStep(body, delim, pos, unwritable) == SavePart(body, delim, pos, headerEnd + 4, partEnd, unwritable)
  {
  }

  /** A pass that saves a part is followed by the rest of the loop. */
  lemma {:induction false} ScanPartsSaved(body: string, delim: string, pos: nat, unwritable: set<string>, w: Write, next: nat)
    requires delim != [] && PartStep(body, delim, pos, unwritable) == Saved(w, next)
    ensures ScanParts(body, delim, pos, unwritable) == After([w], ScanParts(body, delim, next, unwritable))
  {
  }

  /** A pass that stops ends the loop with its outcome. */
  lemma {:induction false} ScanPartsStop(body: string, delim: string, pos: nat, unwritable: set<string>, o: Outcome)
    requires delim != [] && PartStep(body, delim, pos, unwritable) == Stop(o)
    ensures ScanParts(body, delim, pos, unwritable) == o
  {
  }

  /** The pieces of a part, each where it belongs when the part's text starts at `pos`. */
  predicate PartAt(body: string, pos: nat, delim: string, part: Part)
  {
    && OccursAt(body, part.headers, pos)
    && OccursAt(body, "\r\n\r\n", pos + |part.headers|)
    && OccursAt(body, part.contents + "\r\n", pos + |part.headers| + 4)
    && OccursAt(body, delim, pos + |part.headers| + 4 + |part.contents| + 2)
  }

  /** Where the pieces of a part's text lie when the text occurs at `pos`. */
  lemma {:induction false} PartTextAt(body: string, pos: nat, delim: string, part: Part)
    requires OccursAt(body, PartText(delim, part), pos)
    ensures PartAt(body, pos, delim, part)
    ensures |PartText(delim, part)| == |part.headers| + 4 + |part.contents| + 2 + |delim|
  {
    var a := part.headers + "\r\n\r\n";
    var c := a + (part.contents + "\r\n");
    OccursConcat(c, delim);
    OccursConcat(a, part.contents + "\r\n");
    OccursConcat(part.headers, "\r\n\r\n");
    OccursIn(body, PartText(delim, part), pos, c, 0);
    OccursIn(body, PartText(delim, part), pos, delim, |c|);
    OccursIn(body, c, pos, a, 0);
    OccursIn(body, c, pos, part.contents + "\r\n", |a|);
    OccursIn(body, a, pos, part.headers, 0);
    OccursIn(body, a, pos, "\r\n\r\n", |part.headers|);
  }

  /** The text of a single part is that part followed by "--" and CRLF. */
  lemma {:induction false} LastPartTextAt(body: string, pos: nat, delim: string, parts: seq<Part>)
    requires |parts| == 1 && OccursAt(body, PartsText(delim, parts), pos)
    ensures OccursAt(body, PartText(delim, parts[0]), pos)
    ensures OccursAt(body, "--\r\n", pos + |PartText(delim, parts[0])|)
    ensures |PartsText(delim, parts)| == |PartText(delim, parts[0])| + 4
  {
    OccursConcat(PartText(delim, parts[0]), "--\r\n");
    OccursIn(body, PartsText(delim, parts), pos, PartText(delim, parts[0]), 0);
    OccursIn(body, PartsText(delim, parts), pos, "--\r\n", |PartText(delim, parts[0])|);
  }

  /** The text of several parts is the first part, CRLF, then the text of the rest. */
  lemma {:induction false} NextPartTextAt(body: string, pos: nat, delim: string, parts: seq<Part>)
    requires |parts| > 1 && OccursAt(body, PartsText(delim, parts), pos)
    ensures OccursAt(body, PartText(delim, parts[0]), pos)
    ensures OccursAt(body, "\r\n", pos + |PartText(delim, parts[0])|)
    ensures OccursAt(body, PartsText(delim, parts[1..]), pos + |PartText(delim, parts[0])| + 2)
    ensures |PartsText(delim, parts)| == |PartText(delim, parts[0])| + 2 + |PartsText(delim, parts[1..])|
  {
    var first := PartText(delim, parts[0]);
    OccursConcat(first + "\r\n", PartsText(delim, parts[1..]));
    OccursConcat(first, "\r\n");
    OccursIn(body, PartsText(delim, parts), pos, first + "\r\n", 0);
    OccursIn(body, PartsText(delim, parts), pos, PartsText(delim, parts[1..]), |first| + 2);
    OccursIn(body, first + "\r\n", pos, first, 0);
    OccursIn(body, first + "\r\n", pos, "\r\n", |first|);
  }

  /** Searching from inside a header block whose first blank line ends it finds that blank line. */
  lemma {:induction false} BlankLineFound(body: string, from: nat, pos: nat, h: string)
    requires OccursAt(body, h, pos) && OccursAt(body, "\r\n\r\n", pos + |h|)
    requires Find(h + "\r\n\r\n", "\r\n\r\n", 0) == Some(|h|)
    requires pos <= from <= pos + |h|
    ensures Find(body, "\r\n\r\n", from) == Some(pos + |h|)
  {
    OccursJoin(body, h, "\r\n\r\n", pos);
    FindInside(body, h + "\r\n\r\n", pos, "\r\n\r\n", from, |h|);
  }

  /** Searching from the start of contents that hold no delimiter finds the delimiter after the contents' CRLF. */
  lemma {:induction false} DelimiterFound(body: string, start: nat, p: string, delim: string)
    requires OccursAt(body, p + "\r\n", start) && OccursAt(body, delim, start + |p| + 2)
    requires Find(p + "\r\n" + delim, delim, 0) == Some(|p| + 2)
    ensures Find(body, delim, start) == Some(start + |p| + 2)
  {
    OccursJoin(body, p + "\r\n", delim, start);
    FindInside(body, p + "\r\n" + delim, start, delim, start, |p| + 2);
  }

  /** The data cut out between the blank line and the CRLF before the delimiter is the contents. */
  lemma {:induction false} DataCut(body: string, start: nat, p: string)
    requires OccursAt(body, p + "\r\n", start) && |body| < SizeLimit
    ensures PartData(body, start, start + |p| + 2) == p
  {
    OccursSlice(body, p + "\r\n", start);
    assert body[start..start + |p|] == (p + "\r\n")[..|p|];
  }

  /** A delimiter followed by "--" is the closing one. */
  lemma {:induction false} ClosingAt(body: string, x: nat)
    requires OccursAt(body, "--\r\n", x)
    ensures ClosingDashes(body, x)
  {
    OccursSlice(body, "--\r\n", x);
    assert body[x..x + 2] == "--\r\n"[..2];
  }

  /** A delimiter followed by CR or LF is not the closing one. */
  lemma {:induction false} NotClosingAt(body: string, x: nat, c: char)
    requires x < |body| && body[x] == c && c != '-'
    ensures !ClosingDashes(body, x)
  {
    assert body[x..Min(x + 2, |body|)][0] == c;
  }

  /** One pass over a well-formed part followed by the closing delimiter saves its contents and stops with the 200 reply. */
  lemma {:induction false} LastPartStep(body: string, pos: nat, delim: string, part: Part)
    requires WellFormedPart(delim, part) && delim != [] && |body| < SizeLimit
    requires PartAt(body, pos, delim, part)
    requires OccursAt(body, "--\r\n", pos + |part.headers| + 4 + |part.contents| + 2 + |delim|)
    ensures PartStep(body, delim, pos, {}) == Stop(Outcome(PartsSavedReply, [Write(PartFileName(pos), part.contents, false)]))
  {
    var h, p := part.headers, part.contents;
    var partEnd := pos + |h| + 4 + |p| + 2;
    PartFound(body, pos, delim, part);
    ClosingAt(body, partEnd + |delim|);
    PartStepLast(body, delim, pos, {}, pos + |h|, partEnd, p);
  }

  /** The searches of one pass over a well-formed part find its blank line and the delimiter after it. */
  lemma {:induction false} PartFound(body: string, pos: nat, delim: string, part: Part)
    requires WellFormedPart(delim, part) && delim != [] && |body| < SizeLimit
    requires PartAt(body, pos, delim, part)
    ensures var headerEnd := pos + |part.headers|;
            var partEnd := headerEnd + 4 + |part.contents| + 2;
            && Find(body, "\r\n\r\n", pos) == Some(headerEnd)
            && Find(body, delim, headerEnd + 4) == Some(partEnd)
            && PartData(body, headerEnd + 4, partEnd) == part.contents
  {
    var h, p := part.headers, part.contents;
    BlankLineFound(body, pos, pos, h);
    DelimiterFound(body, pos + |h| + 4, p, delim);
    DataCut(body, pos + |h| + 4, p);
  }

  /** One pass over a well-formed part followed by another delimiter saves its contents and goes on past the CRLF. */
  lemma {:induction false} FirstPartStep(body: string, pos: nat, delim: string, part: Part)
    requires WellFormedPart(delim, part) && delim != [] && |body| < SizeLimit
    requires PartAt(body, pos, delim, part)
    requires OccursAt(body, "\r\n", pos + |part.headers| + 4 + |part.contents| + 2 + |delim|)
    ensures PartStep(body, delim, pos, {})
            == Saved(Write(PartFileName(pos), part.contents, false), pos + |part.headers| + 4 + |part.contents| + 2 + |delim| + 2)
  {
    var h, p := part.headers, part.contents;
    var partEnd := pos + |h| + 4 + |p| + 2;
    PartFound(body, pos, delim, part);
    OccursChar(body, "\r\n", partEnd + |delim|, 0);
    NotClosingAt(body, partEnd + |delim|, '\r');
    PartStepNext(body, delim, pos, {}, pos + |h|, partEnd, p);
  }

  /**
   * The multipart loop over well-formed parts saves every part's contents,
   * in order, and answers 200.
   */
  lemma {:induction false} ScanPartsReadsAll(body: string, pos: nat, delim: string, parts: seq<Part>)
    requires parts != [] && WellFormedParts(delim, parts) && delim != []
    requires OccursAt(body, PartsText(delim, parts), pos) && |body| < SizeLimit
    ensures var o := ScanParts(body, delim, pos, {});
            o.reply == PartsSavedReply && SavedData(o.writes) == Contents(parts)
    decreases |parts|
  {
    if |parts| == 1 {
      ScanLastPart(body, pos, delim, parts);
    } else {
      var w := Write(PartFileName(pos), parts[0].contents, false);
      var next := pos + |PartText(delim, parts[0])| + 2;
      ScanNextPart(body, pos, delim, parts);
      PartsTail(delim, parts);
      ScanPartsReadsAll(body, next, delim, parts[1..]);
      SavedFirst(w, ScanParts(body, delim, next, {}), parts);
    }
  }

  /** Saving the first part, then all the rest, saves all parts. */
  lemma {:induction false} SavedFirst(w: Write, o: Outcome, parts: seq<Part>)
    requires parts != [] && w.data == parts[0].contents && SavedData(o.writes) == Contents(parts[1..])
    ensures After([w], o).reply == o.reply && SavedData(After([w], o).writes) == Contents(parts)
  {
    ContentsCons(parts);
    SavedCons(w, o.writes);
  }

  /** The loop over a single well-formed part saves it and answers 200. */
  lemma {:induction false} ScanLastPart(body: string, pos: nat, delim: string, parts: seq<Part>)
    requires |parts| == 1 && WellFormedParts(delim, parts) && delim != []
    requires OccursAt(body, PartsText(delim, parts), pos) && |body| < SizeLimit
    ensures var o := ScanParts(body, delim, pos, {});
            o.reply == PartsSavedReply && SavedData(o.writes) == Contents(parts)
  {
    var w := Write(PartFileName(pos), parts[0].contents, false);
    ContentsCons(parts);
    LastPartTextAt(body, pos, delim, parts);
    PartTextAt(body, pos, delim, parts[0]);
    LastPartStep(body, pos, delim, parts[0]);
    ScanPartsStop(body, delim, pos, {}, Outcome(PartsSavedReply, [w]));
    SavedCons(w, []);
  }

  /** The loop over several well-formed parts saves the first and goes on at the text of the rest. */
  lemma {:induction false} ScanNextPart(body: string, pos: nat, delim: string, parts: seq<Part>)
    requires |parts| > 1 && WellFormedParts(delim, parts) && delim != []
    requires OccursAt(body, PartsText(delim, parts), pos) && |body| < SizeLimit
    ensures var next := pos + |PartText(delim, parts[0])| + 2;
            && ScanParts(body, delim, pos, {})
               == After([Write(PartFileName(pos), parts[0].contents, false)], ScanParts(body, delim, next, {}))
            && OccursAt(body, PartsText(delim, parts[1..]), next)
  {
    var w := Write(PartFileName(pos), parts[0].contents, false);
    NextPartTextAt(body, pos, delim, parts);
    PartTextAt(body, pos, delim, parts[0]);
    FirstPartStep(body, pos, delim, parts[0]);
    ScanPartsSaved(body, delim, pos, {}, w, pos + |PartText(delim, parts[0])| + 2);
  }

  /** The opening delimiter line comes first, and the parts' text right after it. */
  lemma {:induction false} MultipartBodyAt(b: string, parts: seq<Part>)
    requires parts != []
    ensures OccursAt(MultipartBody(b, parts), "--" + b, 0)
    ensures OccursAt(MultipartBody(b, parts), "\r\n", |b| + 2)
    ensures OccursAt(MultipartBody(b, parts), PartsText("--" + b, parts), |b| + 4)
  {
    var opening := "--" + b + "\r\n";
    OccursConcat(opening, PartsText("--" + b, parts));
    OccursConcat("--" + b, "\r\n");
    OccursIn(MultipartBody(b, parts), opening, 0, "--" + b, 0);
    OccursIn(MultipartBody(b, parts), opening, 0, "\r\n", |b| + 2);
  }

  /**
   * A multipart upload of well-formed parts, with the boundary given as a
   * bare Content-Type parameter, saves every part's contents, in order, to
   * distinct part files and answers 200.
   */
  lemma {:induction false} MultipartRoundTrip(b: string, parts: seq<Part>)
    requires parts != [] && WellFormedParts("--" + b, parts)
    requires |MultipartBody(b, parts)| < SizeLimit
    ensures var o := Multipart("multipart/form-data; boundary=" + b, MultipartBody(b, parts), {});
            o.reply == PartsSavedReply && SavedData(o.writes) == Contents(parts) && PartWrites(o.writes, 0)
  {
    var body := MultipartBody(b, parts);
    BoundaryParameter(b);
    MultipartBodyAt(b, parts);
    FindFirst(body, "--" + b, 0, 0);
    ScanPartsReadsAll(body, |b| + 4, "--" + b, parts);
    MultipartWritesParts("multipart/form-data; boundary=" + b, body, {});
  }

  /**
   * The parser keeps the CR that ends the Content-Type header line, so the
   * boundary searched for is "--" + b + CR. Every delimiter between parts is
   * followed by CRLF and so still matches, but each scan resumes one
   * character late, and the closing delimiter (followed by "--") never
   * matches: all parts but the last are saved, then the upload is refused
   * with a 400.
   */
  lemma {:induction false} CrBoundaryDropsLastPart(body: string, pos: nat, b: string, parts: seq<Part>)
    requires parts != [] && WellFormedParts("--" + b, parts) && HeadedParts(parts)
    requires b != [] && b[|b| - 1] != '-'
    requires OccursAt(body, PartsText("--" + b, parts), pos) && pos + |PartsText("--" + b, parts)| == |body|
    requires |body| < SizeLimit
    ensures var o := ScanParts(body, "--" + b + "\r", pos + 1, {});
            o.reply == BadRequest && SavedData(o.writes) == Contents(parts[..|parts| - 1])
    decreases |parts|
  {
    if |parts| == 1 {
      CrScanLast(body, pos, b, parts);
      assert parts[..0] == [];
    } else {
      NextPartTextAt(body, pos, "--" + b, parts);
      PartsTail("--" + b, parts);
      CrBoundaryDropsLastPart(body, pos + |PartText("--" + b, parts[0])| + 2, b, parts[1..]);
      CrDropsNext(body, pos, b, parts);
    }
  }

  /** With the CR boundary, the scan of a body ending in a single part stops with a 400 and saves nothing. */
  lemma {:induction false} CrScanLast(body: string, pos: nat, b: string, parts: seq<Part>)
    requires |parts| == 1 && WellFormedParts("--" + b, parts) && HeadedParts(parts)
    requires b != [] && b[|b| - 1] != '-'
    requires OccursAt(body, PartsText("--" + b, parts), pos) && pos + |PartsText("--" + b, parts)| == |body|
    ensures ScanParts(body, "--" + b + "\r", pos + 1, {}) == Outcome(BadRequest, [])
  {
    LastPartTextAt(body, pos, "--" + b, parts);
    PartTextAt(body, pos, "--" + b, parts[0]);
    CrRefusesLastPart(body, pos, b, parts[0]);
    ScanPartsStop(body, "--" + b + "\r", pos + 1, {}, Outcome(BadRequest, []));
  }

  /** If the scan of the later parts drops only the last one, so does the scan from the first. */
  lemma {:induction false} CrDropsNext(body: string, pos: nat, b: string, parts: seq<Part>)
    requires |parts| > 1 && WellFormedParts("--" + b, parts) && HeadedParts(parts)
    requires b != [] && |body| < SizeLimit
    requires OccursAt(body, PartsText("--" + b, parts), pos)
    requires var o := ScanParts(body, "--" + b + "\r", pos + |PartText("--" + b, parts[0])| + 2 + 1, {});
             o.reply == BadRequest && SavedData(o.writes) == Contents(parts[1..][..|parts| - 2])
    ensures var o := ScanParts(body, "--" + b + "\r", pos + 1, {});
            o.reply == BadRequest && SavedData(o.writes) == Contents(parts[..|parts| - 1])
  {
    CrScanNext(body, pos, b, parts);
    SavedDropsLast(Write(PartFileName(pos + 1), parts[0].contents, false),
                   ScanParts(body, "--" + b + "\r", pos + |PartText("--" + b, parts[0])| + 2 + 1, {}).writes, parts);
  }

  /** With the CR boundary, the first of several parts is saved and the scan goes on one character into the next part. */
  lemma {:induction false} CrScanNext(body: string, pos: nat, b: string, parts: seq<Part>)
    requires |parts| > 1 && WellFormedParts("--" + b, parts) && HeadedParts(parts)
    requires b != [] && |body| < SizeLimit
    requires OccursAt(body, PartsText("--" + b, parts), pos)
    ensures ScanParts(body, "--" + b + "\r", pos + 1, {})
            == After([Write(PartFileName(pos + 1), parts[0].contents, false)],
                     ScanParts(body, "--" + b + "\r", pos + |PartText("--" + b, parts[0])| + 2 + 1, {}))
  {
    NextPartTextAt(body, pos, "--" + b, parts);
    PartTextAt(body, pos, "--" + b, parts[0]);
    CrFirstPartStep(body, pos, b, parts[0]);
    ScanPartsSaved(body, "--" + b + "\r", pos + 1, {}, Write(PartFileName(pos + 1), parts[0].contents, false),
                   pos + |PartText("--" + b, parts[0])| + 2 + 1);
  }

  /** With the CR boundary, the last part's closing delimiter is never found: 400, nothing more saved. */
  lemma {:induction false} CrRefusesLastPart(body: string, pos: nat, b: string, part: Part)
    requires WellFormedPart("--" + b, part) && part.headers != [] && b != [] && b[|b| - 1] != '-'
    requires PartAt(body, pos, "--" + b, part)
    requires OccursAt(body, "--\r\n", pos + |part.headers| + 4 + |part.contents| + 2 + |b| + 2)
    requires pos + |part.headers| + 4 + |part.contents| + 2 + |b| + 6 == |body|
    ensures PartStep(body, "--" + b + "\r", pos + 1, {}) == Stop(Outcome(BadRequest, []))
  {
    BlankLineFound(body, pos + 1, pos, part.headers);
    CrDelimiterMissing(body, pos + |part.headers| + 4, part.contents, b);
  }

  /**
   * After contents that hold no delimiter, a CRLF and the closing delimiter
   * that ends the body, "--" + b + CR is not found.
   */
  lemma {:induction false} CrDelimiterMissing(body: string, start: nat, p: string, b: string)
    requires b != [] && b[|b| - 1] != '-' && Find(p + "\r\n" + ("--" + b), "--" + b, 0) == Some(|p| + 2)
    requires OccursAt(body, p + "\r\n", start) && OccursAt(body, "--" + b, start + |p| + 2)
    requires OccursAt(body, "--\r\n", start + |p| + 2 + |b| + 2) && start + |p| + 2 + |b| + 6 == |body|
    ensures Find(body, "--" + b + "\r", start) == None
  {
    var closingAt := start + |p| + 2;
    OccursJoin(body, "--" + b, "--\r\n", closingAt);
    CrNoneBefore(body, start, p, b);
    forall k | closingAt <= k
      ensures !OccursAt(body, "--" + b + "\r", k)
    {
      NoCrDelimiterAt(body, closingAt, b, k);
    }
    FindIsFirst(body, "--" + b + "\r", start);
  }

  /** Where no "--" + b precedes the delimiter after the contents, neither does "--" + b + CR. */
  lemma {:induction false} CrNoneBefore(body: string, start: nat, p: string, b: string)
    requires Find(p + "\r\n" + ("--" + b), "--" + b, 0) == Some(|p| + 2)
    requires OccursAt(body, p + "\r\n", start) && OccursAt(body, "--" + b, start + |p| + 2)
    ensures forall k :: start <= k < start + |p| + 2 ==> !OccursAt(body, "--" + b + "\r", k)
  {
    OccursJoin(body, p + "\r\n", "--" + b, start);
    NoneBefore(body, p + "\r\n" + ("--" + b), start, "--" + b, |p| + 2);
    forall k | start <= k < start + |p| + 2
      ensures !OccursAt(body, "--" + b + "\r", k)
    {
      AbsentExtended(body, "--" + b, "\r", k);
    }
  }

  /** With the CR boundary, a part followed by another is still saved, and the scan resumes one character late. */
  lemma {:induction false} CrFirstPartStep(body: string, pos: nat, b: string, part: Part)
    requires WellFormedPart("--" + b, part) && part.headers != [] && b != [] && |body| < SizeLimit
    requires PartAt(body, pos, "--" + b, part)
    requires OccursAt(body, "\r\n", pos + |part.headers| + 4 + |part.contents| + 2 + |b| + 2)
    ensures PartStep(body, "--" + b + "\r", pos + 1, {})
            == Saved(Write(PartFileName(pos + 1), part.contents, false), pos + |part.headers| + 4 + |part.contents| + 2 + |b| + 2 + 3)
  {
    assert |"--" + b + "\r"| == |b| + 3;
    CrPartFound(body, pos, b, part);
    PartStepNext(body, "--" + b + "\r", pos + 1, {}, pos + |part.headers|, pos + |part.headers| + 4 + |part.contents| + 2, part.contents);
  }

  /** What one pass with the CR boundary finds in a part that another part follows. */
  lemma {:induction false} CrPartFound(body: string, pos: nat, b: string, part: Part)
    requires WellFormedPart("--" + b, part) && part.headers != [] && b != [] && |body| < SizeLimit
    requires PartAt(body, pos, "--" + b, part)
    requires OccursAt(body, "\r\n", pos + |part.headers| + 4 + |part.contents| + 2 + |b| + 2)
    ensures var delim := "--" + b + "\r";
            var headerEnd := pos + |part.headers|;
            var partEnd := headerEnd + 4 + |part.contents| + 2;
            && Find(body, "\r\n\r\n", pos + 1) == Some(headerEnd)
            && Find(body, delim, headerEnd + 4) == Some(partEnd)
            && PartData(body, headerEnd + 4, partEnd) == part.contents
            && !ClosingDashes(body, partEnd + |b| + 3)
  {
    var headerEnd := pos + |part.headers|;
    var partEnd := headerEnd + 4 + |part.contents| + 2;
    CrPartLocated(body, pos, b, part);
    LineFeedNotClosing(body, partEnd + |b| + 2);
  }

  lemma {:induction false} CrPartLocated(body: string, pos: nat, b: string, part: Part)
    requires WellFormedPart("--" + b, part) && part.headers != [] && b != [] && |body| < SizeLimit
    requires PartAt(body, pos, "--" + b, part)
    requires OccursAt(body, "\r\n", pos + |part.headers| + 4 + |part.contents| + 2 + |b| + 2)
    ensures var headerEnd := pos + |part.headers|;
            var partEnd := headerEnd + 4 + |part.contents| + 2;
            && Find(body, "\r\n\r\n", pos + 1) == Some(headerEnd)
            && Find(body, "--" + b + "\r", headerEnd + 4) == Some(partEnd)
            && PartData(body, headerEnd + 4, partEnd) == part.contents
  {
    var headerEnd := pos + |part.headers|;
    BlankLineFound(body, pos + 1, pos, part.headers);
    CrDelimiterFound(body, headerEnd + 4, part.contents, b);
    DataCut(body, headerEnd + 4, part.contents);
  }

  /**
   * Searching with the CR boundary from the start of contents that hold no
   * delimiter finds the delimiter after them, which a CRLF follows.
   */
  lemma {:induction false} CrDelimiterFound(body: string, start: nat, p: string, b: string)
    requires OccursAt(body, p + "\r\n", start) && Find(p + "\r\n" + ("--" + b), "--" + b, 0) == Some(|p| + 2)
    requires OccursAt(body, "--" + b, start + |p| + 2) && OccursAt(body, "\r\n", start + |p| + 2 + |b| + 2)
    ensures Find(body, "--" + b + "\r", start) == Some(start + |p| + 2)
  {
    CrDelimiterAt(body, start + |p| + 2, b);
    CrNoneBefore(body, start, p, b);
    FindAt(body, "--" + b + "\r", start, start + |p| + 2);
  }

  /** The LF of a CRLF is not the start of the closing "--". */
  lemma {:induction false} LineFeedNotClosing(body: string, x: nat)
    requires OccursAt(body, "\r\n", x)
    ensures !ClosingDashes(body, x + 1)
  {
    OccursChar(body, "\r\n", x, 1);
    NotClosingAt(body, x + 1, '\n');
  }

  /** A delimiter followed by CRLF is an occurrence of the delimiter with CR, and is followed by LF. */
  lemma {:induction false} CrDelimiterAt(body: string, x: nat, b: string)
    requires OccursAt(body, "--" + b, x) && OccursAt(body, "\r\n", x + |b| + 2)
    ensures OccursAt(body, "--" + b + "\r", x)
  {
    OccursChar(body, "\r\n", x + |b| + 2, 0);
    OccursChars(body, "\r", x + |b| + 2);
    OccursJoin(body, "--" + b, "\r", x);
  }

  /**
   * A browser's multipart upload whose Content-Type value keeps its CR, as
   * the header parser leaves it, saves all parts but the last and answers
   * 400.
   */
  lemma {:induction false} CrBoundaryUpload(b: string, parts: seq<Part>)
    requires parts != [] && WellFormedParts("--" + b, parts) && HeadedParts(parts)
    requires b != [] && b[|b| - 1] != '-'
    requires |MultipartBody(b, parts)| < SizeLimit
    ensures var o := Multipart("multipart/form-data; boundary=" + b + "\r", MultipartBody(b, parts), {});
            o.reply == BadRequest && SavedData(o.writes) == Contents(parts[..|parts| - 1])
  {
    var contentType := "multipart/form-data; boundary=" + b + "\r";
    var delim := "--" + b + "\r";
    var body := MultipartBody(b, parts);
    assert Boundary(contentType) == Some(delim) by {
      assert contentType == "multipart/form-data; boundary=" + (b + "\r");
      BoundaryParameter(b + "\r");
      assert "--" + (b + "\r") == delim;
    }
    MultipartBodyAt(b, parts);
    CrDelimiterAt(body, 0, b);
    FindFirst(body, delim, 0, 0);
    MultipartScans(contentType, body, {}, delim, 0);
    assert 0 + |delim| + 2 == |b| + 4 + 1;
    CrBoundaryDropsLastPart(body, |b| + 4, b, parts);
  }

  /** "--" + b + CR does not occur in the closing delimiter that ends the body. */
  lemma {:induction false} NoCrDelimiterAt(body: string, closingAt: nat, b: string, k: nat)
    requires b != [] && b[|b| - 1] != '-'
    requires OccursAt(body, "--" + b + "--\r\n", closingAt) && closingAt + |b| + 6 == |body| && closingAt <= k
    ensures !OccursAt(body, "--" + b + "\r", k)
  {
    var closing := "--" + b + "--\r\n";
    var delim := "--" + b + "\r";
    if k + |delim| <= |body| {
      var j := k - closingAt;
      assert j <= 3;
      if j == 2 {
        OccursChar(body, closing, closingAt, j + |b| + 1);
        assert body[k + (|b| + 1)] == '-' && delim[|b| + 1] == b[|b| - 1];
        Mismatch(body, delim, k, |b| + 1);
      } else {
        OccursChar(body, closing, closingAt, j + |b| + 2);
        assert body[k + (|b| + 2)] != '\r' && delim[|b| + 2] == '\r';
        Mismatch(body, delim, k, |b| + 2);
      }
    }
  }
}
