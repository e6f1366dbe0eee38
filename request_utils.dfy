/** Extraction of the submitted code from a request: a JSON body or a
    multipart file upload, with the checks and error answers of each. */
module RequestUtils {
  import opened Wrappers
  import opened Text
  import opened Utf8
  import Config
  import FileUtils

  /** `RequestError`: a message and an HTTP status, 400 unless stated. */
  datatype RequestError = RequestError(message: string, statusCode: int := 400)

  /** `create_error_response`: the JSON body {"message": ...} with its status. */
  datatype ErrorResponse = ErrorResponse(message: string, status: int)

  function CreateErrorResponse(message: string, statusCode: int := 400): (r: ErrorResponse)
    ensures r.message == message && r.status == statusCode
  {
    ErrorResponse(message, statusCode)
  }

  // ---------------------------------------------------------------------
  // Requests

  /** A JSON value as `request.get_json()` returns it. */
  datatype Json =
    | JNull
    | JBool(b: bool)
    | JNumber(n: real)
    | JString(s: string)
    | JArray(items: seq<Json>)
    | JObject(fields: map<string, Json>)

  /** Python truth of the decoded value: null, false, 0, "", [] and {} are false. */
  predicate Truthy(j: Json) {
    match j
    case JNull => false
    case JBool(b) => b
    case JNumber(n) => n != 0.0
    case JString(s) => s != []
    case JArray(items) => items != []
    case JObject(fields) => fields != map[]
  }

  /** A part of a multipart upload: the client's file name and the bytes. */
  datatype FileBlob = FileBlob(filename: string, data: seq<byte>)

  /** What the extraction reads of a request. `json` is None when the body
      does not parse as JSON (Flask then raises a bad-request error). */
  datatype Request = Request(
    isJson: bool,
    contentType: Option<string>,
    json: Option<Json>,
    files: map<string, FileBlob>)

  const DefaultFilename := "unnamed_file.txt"
  const NoJsonData := "No JSON data provided"
  const EmptyCode := "Code provided is empty"
  const InvalidJson := "Invalid JSON format"

  // ---------------------------------------------------------------------
  // JSON submissions

  /** `data.get(key, default)` on an object. */
  function Get(fields: map<string, Json>, key: string, default: Json): (v: Json)
    ensures key in fields ==> v == fields[key]
    ensures key !in fields ==> v == default
  {
    if key in fields then fields[key] else default
  }

  /** `data.get("code", "")`. */
  function CodeField(fields: map<string, Json>): (code: Json)
    ensures "code" !in fields ==> code == JString("")
    ensures "code" in fields ==> code == fields["code"]
  {
    Get(fields, "code", JString(""))
  }

  /** `extract_code_from_json`: the stripped code and the filename field.
      A body that is not an object, or a code field that is not a string,
      has no `.get`/`.strip` and ends in "Invalid JSON format". */
  function ExtractCodeFromJson(body: Option<Json>): (r: Result<(string, Json), RequestError>)
    ensures r.Err? ==> r.error.statusCode == 400
    ensures body.None? ==> r == Err(RequestError(InvalidJson))
    ensures body.Some? && !Truthy(body.value) ==> r == Err(RequestError(NoJsonData))
    ensures r.Ok? <==> (body.Some? && body.value.JObject? && body.value.fields != map[]
                        && CodeField(body.value.fields).JString?
                        && Strip(CodeField(body.value.fields).s) != [])
    ensures r.Ok? ==> "code" in body.value.fields && r.value.0 == Strip(CodeField(body.value.fields).s)
    ensures r.Ok? ==> r.value.1 == Get(body.value.fields, "filename", JString(DefaultFilename))
    ensures r.Ok? ==> !IsSpace(r.value.0[0]) && !IsSpace(r.value.0[|r.value.0| - 1])
  {
    match body
    case None => Err(RequestError(InvalidJson))
    case Some(data) =>
      if !Truthy(data) then Err(RequestError(NoJsonData))
      else if !data.JObject? then Err(RequestError(InvalidJson))
      else
        var code := CodeField(data.fields);
        if !code.JString? then Err(RequestError(InvalidJson))
        else if Strip(code.s) == [] then Err(RequestError(EmptyCode))
        else Ok((Strip(code.s), Get(data.fields, "filename", JString(DefaultFilename))))
  }

  /** Code that is missing, or only whitespace, is refused as empty. */
  lemma BlankCodeIsEmpty(fields: map<string, Json>)
    requires fields != map[]
    requires "code" !in fields || (fields["code"].JString? && forall i :: 0 <= i < |fields["code"].s| ==> IsSpace(fields["code"].s[i]))
    ensures ExtractCodeFromJson(Some(JObject(fields))) == Err(RequestError(EmptyCode))
  {
    assert Truthy(JObject(fields));
    if "code" in fields {
      var text := fields["code"].s;
      assert forall i :: 0 <= i < |text| ==> IsSpace(text[i]);
      assert Strip(text) == [];
    } else {
      assert Strip("") == [];
    }
  }

  /** Submitting the extracted code again gives it back unchanged: the
      stripping is done once and for all. */
  lemma ResubmittingIsStable(body: Option<Json>)
    requires ExtractCodeFromJson(body).Ok?
    ensures ExtractCodeFromJson(Some(JObject(map["code" := JString(ExtractCodeFromJson(body).value.0)])))
            == Ok((ExtractCodeFromJson(body).value.0, JString(DefaultFilename)))
  {
    StrippedCodeIsKept(ExtractCodeFromJson(body).value.0);
  }

  /** Code with no whitespace at its ends, sent alone, comes back as it is
      under the default filename. */
  lemma StrippedCodeIsKept(code: string)
    requires code != [] && !IsSpace(code[0]) && !IsSpace(code[|code| - 1])
    ensures ExtractCodeFromJson(Some(JObject(map["code" := JString(code)])))
            == Ok((code, JString(DefaultFilename)))
  {
    StripNoEdgeSpace(code);
    var fields := map["code" := JString(code)];
    assert "code" in fields && fields != map[];
    assert Get(fields, "code", JString("")) == JString(code);
    assert "filename" !in fields;
  }

  // ---------------------------------------------------------------------
  // File uploads: the extension

  /** `Path(p).name` for a POSIX path: the last component once empty and
      "." components are dropped, or "" when none is left. */
  function PathName(p: string): (name: string)
    ensures '/' !in name
    decreases |p|
  {
    match LastIndexOf(p, '/')
    case None => if p == "." then "" else p
    case Some(i) =>
      var tail := p[i + 1..];
      if tail == "" || tail == "." then PathName(p[..i])
      else
        assert forall k :: 0 <= k < |tail| ==> tail[k] == p[i + 1 + k];
        tail
  }

  /** `name` is a whole component of `p` starting at offset `a`: it is
      bounded by a '/' or an end of `p` on either side. */
  predicate ComponentAt(p: string, a: nat, name: string) {
    a + |name| <= |p| && p[a..a + |name|] == name
    && (a == 0 || p[a - 1] == '/')
    && (a + |name| == |p| || p[a + |name|] == '/')
  }

  /** From offset `b` on, `p` holds only empty and "." components. */
  predicate OnlySkippedFrom(p: string, b: nat) {
    forall k :: b <= k < |p| && p[k] != '/' ==>
      p[k] == '.' && (k == 0 || p[k - 1] == '/') && (k + 1 == |p| || p[k + 1] == '/')
  }

  /** What `Path(p).name` is: a component of `p` that is neither empty nor
      ".", followed only by skipped components; "" when every component is
      skipped. */
  ghost predicate IsLastComponent(p: string, name: string) {
    name != "." && '/' !in name
    && (name == [] ==> OnlySkippedFrom(p, 0))
    && (name != [] ==> exists a: nat :: ComponentAt(p, a, name) && OnlySkippedFrom(p, a + |name|))
  }

  /** `Path(p).name` is the last component of `p` that is neither empty nor ".". */
  lemma {:induction false} PathNameIsLastComponent(p: string)
    ensures IsLastComponent(p, PathName(p))
    decreases |p|
  {
    match LastIndexOf(p, '/')
    case None =>
      LastComponentWithoutSlash(p);
    case Some(i) =>
      var tail := p[i + 1..];
      if tail == "" || tail == "." {
        PathNameIsLastComponent(p[..i]);
        LastComponentBeforeSkipped(p, i);
      } else {
        assert p[i + 1..i + 1 + |tail|] == tail;
        assert ComponentAt(p, i + 1, tail);
      }
  }

  lemma LastComponentWithoutSlash(p: string)
    requires '/' !in p
    ensures IsLastComponent(p, if p == "." then "" else p)
  {
    if p != "." && p != [] {
      assert p[0..|p|] == p;
      assert ComponentAt(p, 0, p);
    }
  }

  /** An empty or "." component after the last '/' leaves the name to the
      text before that '/'. */
  lemma LastComponentBeforeSkipped(p: string, i: nat)
    requires i < |p| && p[i] == '/' && (p[i + 1..] == "" || p[i + 1..] == ".")
    requires IsLastComponent(p[..i], PathName(p[..i]))
    ensures IsLastComponent(p, PathName(p[..i]))
  {
    var front, name := p[..i], PathName(p[..i]);
    if name == [] {
      SkippedExtends(p, i, 0);
    } else {
      var a: nat :| ComponentAt(front, a, name) && OnlySkippedFrom(front, a + |name|);
      ComponentInPrefix(p, i, a, name);
      SkippedExtends(p, i, a + |name|);
      assert ComponentAt(p, a, name) && OnlySkippedFrom(p, a + |name|);
    }
  }

  /** A component of the text before a '/' is a component of the whole. */
  lemma ComponentInPrefix(p: string, i: nat, a: nat, name: string)
    requires i < |p| && p[i] == '/' && ComponentAt(p[..i], a, name)
    ensures ComponentAt(p, a, name)
  {
    var front := p[..i];
    assert forall k :: a <= k < a + |name| ==> front[k] == p[k];
    assert p[a..a + |name|] == front[a..a + |name|];
    if a > 0 { assert p[a - 1] == front[a - 1]; }
    if a + |name| < i { assert p[a + |name|] == front[a + |name|]; }
  }

  /** Skipped components before a '/' stay skipped when an empty or "."
      component follows. */
  lemma SkippedExtends(p: string, i: nat, b: nat)
    requires i < |p| && p[i] == '/' && (p[i + 1..] == "" || p[i + 1..] == ".")
    requires b <= i && OnlySkippedFrom(p[..i], b)
    ensures OnlySkippedFrom(p, b)
  {
    forall k | b <= k < |p| && p[k] != '/'
      ensures p[k] == '.' && (k == 0 || p[k - 1] == '/') && (k + 1 == |p| || p[k + 1] == '/')
    {
      if k < i {
        assert p[..i][k] == p[k];
        if k + 1 < i { assert p[..i][k + 1] == p[k + 1]; }
        if 0 < k { assert p[..i][k - 1] == p[k - 1]; }
      } else {
        assert k == i + 1 && p[i + 1..][0] == p[k];
      }
    }
  }

  /** `Path(filename).suffix[1:]`: the text after the last dot of the name,
      provided that dot is neither the first nor the last character. */
  function UploadExtension(filename: string): (ext: string)
    ensures '.' !in ext
    ensures ext != [] ==> exists i :: 0 < i < |PathName(filename)| - 1
                                     && PathName(filename)[i] == '.'
                                     && PathName(filename)[i + 1..] == ext
    ensures ext != [] <==> exists i :: 0 < i < |PathName(filename)| - 1
                                     && PathName(filename)[i] == '.'
                                     && '.' !in PathName(filename)[i + 1..]
  {
    var name := PathName(filename);
    match LastIndexOf(name, '.')
    case None => ""
    case Some(i) =>
      OnlyLastDotIsFinal(name, i);
      if 0 < i < |name| - 1 then
        name[i + 1..]
      else ""
  }

  /** The last dot is the only dot with no dot after it. */
  lemma OnlyLastDotIsFinal(name: string, i: nat)
    requires LastIndexOf(name, '.') == Some(i)
    ensures '.' !in name[i + 1..]
    ensures forall j :: 0 <= j < |name| && name[j] == '.' && '.' !in name[j + 1..] ==> j == i
  {
  }

  /** The upload rule and `allowed_file` agree on plain names, except for a
      name whose only dot is its first character. */
  lemma {:induction false} UploadRuleAgreesWithAllowedFile(filename: string)
    requires '/' !in filename
    requires LastIndexOf(filename, '.') != Some(0)
    ensures (Lower(UploadExtension(filename)) in Config.AllowedExtensions)
            == FileUtils.AllowedFile(filename, Some(Config.AllowedExtensions))
  {
    assert LastIndexOf(filename, '/') == None;
    assert Lower([]) == [];
    assert PathName(filename) == filename;
  }

  /** ".py" is a Python file to `allowed_file`, while the upload rule sees no
      extension in it and refuses it. */
  lemma DotFileRuleDiffers()
    ensures FileUtils.AllowedFile(".py", Some(Config.AllowedExtensions))
    ensures UploadExtension(".py") == ""
  {
    LastIndexOfIs(".py", '.', 0);
    assert Lower("py") == "py";
    assert LastIndexOf(".py", '/') == None;
    assert PathName(".py") == ".py";
  }

  /** A directory part before the name is ignored by the upload rule. */
  lemma DirectoryIsIgnored()
    ensures UploadExtension("src.d/main.py") == "py"
    ensures UploadExtension("main.py/") == "py"
  {
    var p := "src.d/main.py";
    LastIndexOfIs(p, '/', 5);
    assert PathName(p) == "main.py";
    LastIndexOfIs("main.py", '.', 4);
    var q := "main.py/";
    LastIndexOfIs(q, '/', 7);
    assert q[..7] == "main.py";
    assert LastIndexOf("main.py", '/') == None;
    assert PathName(q) == "main.py";
  }

  // ---------------------------------------------------------------------
  // File uploads: reading

  /** A readable byte stream with a read position. */
  class ByteStream {
    var data: seq<byte>
    var pos: nat

    predicate Valid()
      reads this
    {
      pos <= |data|
    }

    /** The bytes not read yet. */
    function Remaining(): seq<byte>
      reads this
      requires Valid()
    {
      data[pos..]
    }

    constructor(data: seq<byte>)
      ensures Valid() && this.data == data && pos == 0
    {
      this.data := data;
      pos := 0;
    }

    /** `read(n)`: up to `n` of the remaining bytes; empty at the end. */
    method Read(n: nat) returns (chunk: seq<byte>)
      requires Valid()
      modifies this
      ensures Valid() && data == old(data)
      ensures |chunk| == if n < |old(Remaining())| then n else |old(Remaining())|
      ensures chunk == old(Remaining())[..|chunk|]
      ensures Remaining() == old(Remaining())[|chunk|..]
      ensures old(Remaining()) == chunk + Remaining()
    {
      var k := if n < |data| - pos then n else |data| - pos;
      chunk := data[pos..pos + k];
      pos := pos + k;
      assert data[old(pos)..] == data[old(pos)..pos] + data[pos..];
    }
  }

  const ChunkSize := 8192

  /** The text `read_file_in_chunks` builds from the bytes `data`: each
      chunk of `chunkSize` bytes decoded on its own, the pieces joined in
      order; None as soon as one chunk fails to decode. */
  function ChunkedDecode(data: seq<byte>, chunkSize: nat, decode: seq<byte> -> Option<string>): Option<string>
    decreases |data|
  {
    if chunkSize == 0 || data == [] then Some([])
    else
      var k := if chunkSize < |data| then chunkSize else |data|;
      match decode(data[..k])
      case None => None
      case Some(piece) => Prepend(piece, ChunkedDecode(data[k..], chunkSize, decode))
  }

  lemma {:induction false} JoinEmptyAppend(parts: seq<string>, part: string)
    ensures Join("", parts + [part]) == Join("", parts) + part
    decreases |parts|
  {
    if parts == [] {
      assert parts + [part] == [part];
    } else {
      assert (parts + [part])[1..] == parts[1..] + [part];
      JoinEmptyAppend(parts[1..], part);
    }
  }

  lemma PrependEmpty(r: Option<string>)
    ensures Prepend(Join("", []), r) == r
  {
    match r
    case None =>
    case Some(t) => assert [] + t == t;
  }

  lemma PrependTwice(a: string, b: string, r: Option<string>)
    ensures Prepend(a, Prepend(b, r)) == Prepend(a + b, r)
  {
    match r
    case None =>
    case Some(t) => assert a + (b + t) == (a + b) + t;
  }

  /** `read_file_in_chunks` as written: reads `chunkSize` bytes at a time
      until an empty read, decoding every chunk separately. */
  method ReadFileInChunks(file: ByteStream, decode: seq<byte> -> Option<string>, chunkSize: nat := ChunkSize)
    returns (text: Option<string>)
    requires file.Valid()
    modifies file
    ensures text == ChunkedDecode(old(file.Remaining()), chunkSize, decode)
    ensures file.Valid() && file.data == old(file.data)
    ensures text.Some? && chunkSize > 0 ==> file.Remaining() == []
  {
    var content: seq<string> := [];
    PrependEmpty(ChunkedDecode(old(file.Remaining()), chunkSize, decode));
    while true
      invariant file.Valid() && file.data == old(file.data)
      invariant ChunkedDecode(old(file.Remaining()), chunkSize, decode)
                == Prepend(Join("", content), ChunkedDecode(file.Remaining(), chunkSize, decode))
      decreases |file.Remaining()|
    {
      ghost var before := file.Remaining();
      var chunk := file.Read(chunkSize);
      if chunk == [] {
        assert chunkSize == 0 || before == [];
        assert Join("", content) + [] == Join("", content);
        break;
      }
      var piece := decode(chunk);
      if piece.None? {
        return None;
      }
      PrependTwice(Join("", content), piece.value, ChunkedDecode(file.Remaining(), chunkSize, decode));
      JoinEmptyAppend(content, piece.value);
      content := content + [piece.value];
    }
    text := Some(Join("", content));
  }

  /** The reading the code evidently intends: the same chunked reads, the
      bytes joined first and decoded once, so no character can be cut in
      two by a chunk boundary. */
  method ReadFileWhole(file: ByteStream, decode: seq<byte> -> Option<string>, chunkSize: nat := ChunkSize)
    returns (text: Option<string>)
    requires file.Valid()
    modifies file
    ensures file.Valid() && file.data == old(file.data)
    ensures chunkSize > 0 ==> text == decode(old(file.Remaining()))
    ensures chunkSize > 0 ==> file.Remaining() == []
  {
    var bytes: seq<byte> := [];
    while true
      invariant file.Valid() && file.data == old(file.data)
      invariant old(file.Remaining()) == bytes + file.Remaining()
      decreases |file.Remaining()|
    {
      ghost var before := file.Remaining();
      var chunk := file.Read(chunkSize);
      if chunk == [] {
        assert chunkSize == 0 || (before == [] && file.Remaining() == []);
        break;
      }
      AppendChunk(old(file.Remaining()), bytes, chunk, file.Remaining());
      bytes := bytes + chunk;
    }
    assert chunkSize > 0 ==> bytes + [] == bytes;
    text := decode(bytes);
  }

  lemma AppendChunk(all: seq<byte>, bytes: seq<byte>, chunk: seq<byte>, rest: seq<byte>)
    requires all == bytes + (chunk + rest)
    ensures all == (bytes + chunk) + rest
  {
  }

  /** On ASCII bytes the chunked reading and a single decode agree. */
  lemma {:induction false} ChunkedDecodeOfAscii(data: seq<byte>, chunkSize: nat)
    requires IsAscii(data) && chunkSize > 0
    ensures ChunkedDecode(data, chunkSize, Decode) == Decode(data)
    decreases |data|
  {
    if data == [] {
      assert Decode(data) == Some([]);
    } else {
      var k := if chunkSize < |data| then chunkSize else |data|;
      var head, tail := data[..k], data[k..];
      assert IsAscii(head) by {
        forall j | 0 <= j < |head| ensures head[j] < 0x80 {
          assert head[j] == data[j];
        }
      }
      assert IsAscii(tail) by {
        forall j | 0 <= j < |tail| ensures tail[j] < 0x80 {
          assert tail[j] == data[k + j];
        }
      }
      DecodeAscii(head);
      ChunkedDecodeOfAscii(tail, chunkSize);
      assert ChunkedDecode(data, chunkSize, Decode) == Prepend(AsciiText(head), Decode(tail));
      assert data == head + tail;
      DecodeAsciiPrefix(head, tail);
    }
  }

  /** 8191 bytes of "a" followed by the two bytes of "é": valid UTF-8 whose
      second character straddles the first 8192-byte boundary. */
  function StraddlingUpload(): seq<byte> {
    seq(8191, _ => 0x61 as byte) + [0xC3, 0xA9]
  }

  /** The chunked reading refuses the upload, while the file is valid UTF-8. */
  lemma ChunkBoundaryRejectsValidText()
    ensures ChunkedDecode(StraddlingUpload(), ChunkSize, Decode) == None
    ensures Decode(StraddlingUpload()).Some?
  {
    var a: seq<byte> := seq(8191, _ => 0x61 as byte);
    var data := StraddlingUpload();
    assert IsAscii(a);
    assert data[..8192] == a + [0xC3];
    DecodeAsciiPrefix(a, [0xC3]);
    TruncatedIsRefused();
    DecodeAsciiPrefix(a, [0xC3, 0xA9]);
    TwoByteSequence();
  }

  // ---------------------------------------------------------------------
  // File uploads: the checks

  const NoFile := "No file found to review"
  const EmptyFile := "Empty file submitted"
  const InvalidTypePrefix := "Invalid file type. Allowed extensions: "
  const NotUtf8 := "File could not be decoded as UTF-8 text"

  /** `extract_code_from_file`. `extensionOrder` is the order in which the
      allowed-extension set lists itself in the error text; the content is
      decoded as a whole (see `ReadFileWhole`). */
  function ExtractCodeFromFile(files: map<string, FileBlob>, extensionOrder: seq<string>,
                               decode: seq<byte> -> Option<string>): (r: Result<(string, string), RequestError>)
    ensures r.Err? ==> r.error.statusCode == 400
    ensures r.Ok? <==> ("filepath" in files && files["filepath"].filename != []
                        && Lower(UploadExtension(files["filepath"].filename)) in Config.AllowedExtensions
                        && decode(files["filepath"].data).Some?)
    ensures r.Ok? ==> r.value == (decode(files["filepath"].data).value, files["filepath"].filename)
    ensures "filepath" !in files ==> r == Err(RequestError(NoFile))
    ensures "filepath" in files && files["filepath"].filename == [] ==> r == Err(RequestError(EmptyFile))
    ensures r.Err? && r.error.message == NotUtf8 ==> decode(files["filepath"].data).None?
  {
    if "filepath" !in files then Err(RequestError(NoFile))
    else
      var blob := files["filepath"];
      if blob.filename == [] then Err(RequestError(EmptyFile))
      else if Lower(UploadExtension(blob.filename)) !in Config.AllowedExtensions then
        assert (InvalidTypePrefix + Join(", ", extensionOrder))[0] != NotUtf8[0];
        Err(RequestError(InvalidTypePrefix + Join(", ", extensionOrder)))
      else match decode(blob.data)
        case None => Err(RequestError(NotUtf8))
        case Some(code) => Ok((code, blob.filename))
  }

  /** An upload named ".py" is refused for its type, whatever it holds. */
  lemma DotFileUploadRefused(data: seq<byte>, extensionOrder: seq<string>, decode: seq<byte> -> Option<string>)
    ensures ExtractCodeFromFile(map["filepath" := FileBlob(".py", data)], extensionOrder, decode)
            == Err(RequestError(InvalidTypePrefix + Join(", ", extensionOrder)))
  {
    DotFileRuleDiffers();
    assert Lower([]) == [];
  }

  // ---------------------------------------------------------------------
  // Dispatch

  const UnsupportedType := "Unsupported content type"
  const InternalError := "Internal server error"
  const Multipart := "multipart/form-data"

  /** A `RequestError` as the response it becomes. */
  function ToResponse(e: RequestError): (r: ErrorResponse)
    ensures r.message == e.message && r.status == e.statusCode
  {
    CreateErrorResponse(e.message, e.statusCode)
  }

  /** A form upload: not JSON, and the content type names multipart form data. */
  predicate IsMultipart(req: Request) {
    !req.isJson && req.contentType.Some? && Contains(req.contentType.value, Multipart)
  }

  /** `extract_code_from_request`: the code and filename, or the error
      response. A request that is not JSON and has no content type fails the
      substring test with a type error, answered as an internal error. */
  function ExtractCodeFromRequest(req: Request, extensionOrder: seq<string>,
                                  decode: seq<byte> -> Option<string>): (r: Result<(string, Json), ErrorResponse>)
    ensures r.Err? ==> r.error.status == 400 || r.error.status == 500
    ensures r.Err? && r.error.status == 500 <==> !req.isJson && req.contentType.None?
    ensures r.Err? && r.error.status == 500 ==> r.error.message == InternalError
    ensures req.isJson ==> (r.Ok? <==> ExtractCodeFromJson(req.json).Ok?)
    ensures req.isJson && r.Ok? ==> r.value == ExtractCodeFromJson(req.json).value
    ensures req.isJson && r.Err? ==> r.error == ToResponse(ExtractCodeFromJson(req.json).error)
    ensures !req.isJson && r.Ok? ==> (req.contentType.Some? && Contains(req.contentType.value, Multipart)
                                      && ExtractCodeFromFile(req.files, extensionOrder, decode).Ok?
                                      && r.value.1 == JString(req.files["filepath"].filename))
    ensures IsMultipart(req) ==> (r.Ok? <==> ExtractCodeFromFile(req.files, extensionOrder, decode).Ok?)
    ensures IsMultipart(req) && r.Ok?
            ==> r.value == (ExtractCodeFromFile(req.files, extensionOrder, decode).value.0,
                            JString(ExtractCodeFromFile(req.files, extensionOrder, decode).value.1))
    ensures IsMultipart(req) && r.Err? ==> r.error == ToResponse(ExtractCodeFromFile(req.files, extensionOrder, decode).error)
    ensures !req.isJson && req.contentType.Some? && !Contains(req.contentType.value, Multipart)
            ==> r == Err(ErrorResponse(UnsupportedType, 400))
  {
    if req.isJson then
      match ExtractCodeFromJson(req.json)
      case Err(e) => Err(ToResponse(e))
      case Ok((code, filename)) => Ok((code, filename))
    else match req.contentType
      case None => Err(CreateErrorResponse(InternalError, 500))
      case Some(contentType) =>
        if Contains(contentType, Multipart) then
          match ExtractCodeFromFile(req.files, extensionOrder, decode)
          case Err(e) => Err(ToResponse(e))
          case Ok((code, filename)) => Ok((code, JString(filename)))
        else Err(CreateErrorResponse(UnsupportedType))
  }

  /** A form upload of a Python file whose bytes decode is answered with the
      decoded text and the client's file name. */
  lemma PythonUploadAccepted(data: seq<byte>, text: string, contentType: string,
                             extensionOrder: seq<string>, decode: seq<byte> -> Option<string>)
    requires decode(data) == Some(text)
    requires Contains(contentType, Multipart)
    ensures ExtractCodeFromRequest(Request(false, Some(contentType), None, map["filepath" := FileBlob("main.py", data)]),
                                   extensionOrder, decode)
            == Ok((text, JString("main.py")))
  {
    var name := "main.py";
    LastIndexOfIs(name, '.', 4);
    assert LastIndexOf(name, '/') == None;
    assert PathName(name) == name;
    assert UploadExtension(name) == "py";
    assert Lower("py") == "py";
  }

  /** A JSON request always takes the JSON route: any form fields are ignored. */
  lemma JsonTakesPrecedence(req: Request, extensionOrder: seq<string>, decode: seq<byte> -> Option<string>)
    requires req.isJson
    ensures ExtractCodeFromRequest(req, extensionOrder, decode)
            == ExtractCodeFromRequest(req.(files := map[], contentType := None), extensionOrder, decode)
  {
  }
}
