/**
 * The upload boundary of the image controller: the file filter, the stored
 * file name, and the limits the upload middleware is configured with.
 */
module ImageUpload {
  import opened Wrappers
  import opened JsNumbers

  /** The form field the files must arrive under. */
  const UploadField: string := "images"
  /** At most this many files per request. */
  const MaxFiles: nat := 10
  /** At most this many bytes per file. */
  const MaxFileSize: nat := 5 * 1024 * 1024
  /** The extensions the file filter's pattern lists, in lower case. */
  const ImageExtensions: seq<string> := ["jpg", "jpeg", "png", "gif", "webp"]

  /** Case folding of a case-insensitive pattern without the `u` flag, restricted to ASCII letters. */
  function LowerAscii(c: char): (l: char)
    ensures l != c ==> 'A' <= c <= 'Z'
  {
    if 'A' <= c <= 'Z' then (c as int + 32) as char else c
  }

  function Lower(s: string): (t: string)
    ensures |t| == |s| && forall i :: 0 <= i < |s| ==> t[i] == LowerAscii(s[i])
  {
    seq(|s|, i requires 0 <= i < |s| => LowerAscii(s[i]))
  }

  /** `name` ends with `.` followed by `ext`, letters compared without regard to case. */
  predicate EndsWithExtension(name: string, ext: string) {
    |name| > |ext| && name[|name| - |ext| - 1] == '.' && Lower(name[|name| - |ext|..]) == ext
  }

  /** The pattern `\.(jpg|jpeg|png|gif|webp)$` with the `i` flag matches `name`. */
  predicate IsImageName(name: string) {
    exists e :: e in ImageExtensions && EndsWithExtension(name, e)
  }

  /** Why the upload middleware refused a request. */
  datatype UploadError =
    | UnexpectedField(field: string)  // a file under another field, or one file too many
    | NotAnImage                      // the file filter refused the file's name
    | FileTooLarge                    // the file is over the size limit

  function ErrorMessage(e: UploadError): string {
    match e
    case UnexpectedField(_) => "Unexpected field"
    case NotAnImage => "Only image files are allowed!"
    case FileTooLarge => "File too large"
  }

  /**
   * The file filter: accepts a file exactly when its original name has a `.`
   * and the text after the last one, in lower case, is a listed extension;
   * otherwise refuses it with `NotAnImage`.
   */
  function FileFilter(originalName: string): (verdict: Option<UploadError>)
    ensures verdict == None || verdict == Some(NotAnImage)
    ensures verdict.None? <==>
      AfterLastDot(originalName).Some? && Lower(AfterLastDot(originalName).value) in ImageExtensions
  {
    FilterByExtension(originalName);
    if IsImageName(originalName) then None else Some(NotAnImage)
  }

  /** The text after the last `.` of `name`, or `None` when `name` has no `.`. */
  function AfterLastDot(name: string): Option<string>
  {
    if name == [] then None
    else if name[|name| - 1] == '.' then Some([])
    else match AfterLastDot(name[..|name| - 1])
      case None => None
      case Some(ext) => Some(ext + [name[|name| - 1]])
  }

  lemma {:induction false} AfterLastDotIsSuffix(name: string)
    requires AfterLastDot(name).Some?
    ensures var ext := AfterLastDot(name).value;
      |name| > |ext| && name[|name| - |ext| - 1] == '.' && ext == name[|name| - |ext|..] &&
      forall i :: 0 <= i < |ext| ==> ext[i] != '.'
  {
    if name[|name| - 1] != '.' {
      var front := name[..|name| - 1];
      AfterLastDotIsSuffix(front);
    }
  }

  lemma {:induction false} AfterLastDotOfSuffix(name: string, k: nat)
    requires k < |name| && name[|name| - k - 1] == '.'
    requires forall i :: |name| - k <= i < |name| ==> name[i] != '.'
    ensures AfterLastDot(name) == Some(name[|name| - k..])
  {
    if k > 0 {
      var front := name[..|name| - 1];
      AfterLastDotOfSuffix(front, k - 1);
      assert front[|front| - (k - 1)..] + [name[|name| - 1]] == name[|name| - k..];
    }
  }

  lemma ExtensionHasNoDot(e: string)
    requires e in ImageExtensions
    ensures forall j :: 0 <= j < |e| ==> e[j] != '.'
  {
  }

  /** An extension without a `.` that a name ends with is the text after the name's last `.`. */
  lemma MatchedExtensionIsLast(name: string, e: string)
    requires EndsWithExtension(name, e)
    requires forall j :: 0 <= j < |e| ==> e[j] != '.'
    ensures AfterLastDot(name) == Some(name[|name| - |e|..])
  {
    var k := |e|;
    var suffix := name[|name| - k..];
    forall i | |name| - k <= i < |name| ensures name[i] != '.' {
      var j := i - (|name| - k);
      assert suffix[j] == name[i];
      assert LowerAscii(suffix[j]) == e[j];
    }
    AfterLastDotOfSuffix(name, k);
  }

  /**
   * The filter is a test on the extension: a name passes exactly when it has
   * a `.` and the text after its last `.`, in lower case, is one of the five.
   */
  lemma FilterByExtension(name: string)
    ensures IsImageName(name) <==>
      AfterLastDot(name).Some? && Lower(AfterLastDot(name).value) in ImageExtensions
  {
    if IsImageName(name) {
      var e :| e in ImageExtensions && EndsWithExtension(name, e);
      ExtensionHasNoDot(e);
      MatchedExtensionIsLast(name, e);
    }
    if AfterLastDot(name).Some? && Lower(AfterLastDot(name).value) in ImageExtensions {
      var ext := AfterLastDot(name).value;
      AfterLastDotIsSuffix(name);
      assert EndsWithExtension(name, Lower(ext));
    }
  }

  /** Text in front of an accepted name does not change the verdict. */
  lemma ExtensionSurvivesPrefix(prefix: string, name: string, e: string)
    requires EndsWithExtension(name, e)
    ensures EndsWithExtension(prefix + name, e)
  {
    var whole := prefix + name;
    assert whole[|whole| - |e|..] == name[|name| - |e|..];
  }

  /** One file part of the multipart request, with the clock and random values its stored name was made from. */
  datatype FilePart = FilePart(fieldName: string, originalName: string, size: nat, stamp: nat, nonce: nat)

  /** A file the middleware kept: its original name, the name it was stored under, and its size. */
  datatype UploadedFile = UploadedFile(originalName: string, filename: string, size: nat)

  /** The stored name: `<stamp>-<nonce>-<original name>`. */
  function StoredName(stamp: nat, nonce: nat, originalName: string): (name: string)
    ensures |name| >= |originalName| + 4
    ensures name[|name| - |originalName|..] == originalName
  {
    var name := DecimalString(stamp) + "-" + DecimalString(nonce) + "-" + originalName;
    assert name[|name| - |originalName|..] == originalName;
    name
  }

  /** Splits a stored name back into its stamp, nonce and original name. */
  function ParseStoredName(name: string): Option<(nat, nat, string)>
  {
    match ReadNumeral(name)
    case None => None
    case Some((stamp, rest)) =>
      if rest == [] || rest[0] != '-' then None
      else match ReadNumeral(rest[1..])
        case None => None
        case Some((nonce, tail)) =>
          if tail == [] || tail[0] != '-' then None else Some((stamp, nonce, tail[1..]))
  }

  lemma StoredNameShape(stamp: nat, nonce: nat, originalName: string)
    ensures StoredName(stamp, nonce, originalName) ==
      DecimalString(stamp) + (['-'] + (DecimalString(nonce) + (['-'] + originalName)))
  {
  }

  /** A stored name determines the stamp, the nonce and the original name it was made from. */
  lemma StoredNameRoundTrip(stamp: nat, nonce: nat, originalName: string)
    ensures ParseStoredName(StoredName(stamp, nonce, originalName)) == Some((stamp, nonce, originalName))
  {
    var tail := ['-'] + originalName;
    var rest := ['-'] + (DecimalString(nonce) + tail);
    StoredNameShape(stamp, nonce, originalName);
    ReadNumeralOf(stamp, rest);
    assert rest[1..] == DecimalString(nonce) + tail;
    ReadNumeralOf(nonce, tail);
    assert tail[1..] == originalName;
  }

  /** In front of a name, text without a `.` does not change whether it ends with an extension. */
  lemma ExtensionUnderDotlessPrefix(prefix: string, name: string, e: string)
    requires forall i :: 0 <= i < |prefix| ==> prefix[i] != '.'
    ensures EndsWithExtension(prefix + name, e) <==> EndsWithExtension(name, e)
  {
    var whole := prefix + name;
    if EndsWithExtension(whole, e) {
      assert whole[|whole| - |e|..] == name[|name| - |e|..];
    }
    if EndsWithExtension(name, e) {
      ExtensionSurvivesPrefix(prefix, name, e);
    }
  }

  /** The stored name passes the filter exactly when the original name does. */
  lemma StoredNameKeepsVerdict(stamp: nat, nonce: nat, originalName: string)
    ensures IsImageName(StoredName(stamp, nonce, originalName)) <==> IsImageName(originalName)
  {
    var prefix := DecimalString(stamp) + (['-'] + (DecimalString(nonce) + ['-']));
    StoredNameShape(stamp, nonce, originalName);
    assert StoredName(stamp, nonce, originalName) == prefix + originalName;
    forall i | 0 <= i < |prefix| ensures prefix[i] != '.' {
      assert prefix[i] == '-' || IsDigit(prefix[i]);
    }
    forall e | e in ImageExtensions
      ensures EndsWithExtension(prefix + originalName, e) <==> EndsWithExtension(originalName, e)
    {
      ExtensionUnderDotlessPrefix(prefix, originalName, e);
    }
  }

  /** What the middleware keeps of an accepted part. */
  function Store(part: FilePart): UploadedFile {
    UploadedFile(part.originalName, StoredName(part.stamp, part.nonce, part.originalName), part.size)
  }

  /**
   * The error the middleware raises on the part at `index` (counting from 0):
   * a file under another field or beyond the count limit first, then the
   * file filter's test on the name (the filter's verdict, as
   * `PartErrorAppliesFilter` states), then the size limit.
   */
  function PartError(part: FilePart, index: nat): Option<UploadError> {
    if part.fieldName != UploadField || index >= MaxFiles then Some(UnexpectedField(part.fieldName))
    else if !IsImageName(part.originalName) then Some(NotAnImage)
    else if part.size > MaxFileSize then Some(FileTooLarge)
    else None
  }

  /** A part under the right field and within the count is refused for its name exactly when the file filter refuses it. */
  lemma PartErrorAppliesFilter(part: FilePart, index: nat)
    requires part.fieldName == UploadField && index < MaxFiles
    ensures FileFilter(part.originalName).Some? ==> PartError(part, index) == FileFilter(part.originalName)
    ensures FileFilter(part.originalName).None? ==>
      PartError(part, index) == (if part.size > MaxFileSize then Some(FileTooLarge) else None)
  {
  }

  /**
   * The checks of the upload middleware over the parts that carry a file, in
   * arrival order: the first part with an error ends the request with that
   * error; otherwise every part is stored, in order. The count limit sees
   * each part's position among these parts.
   */
  function ReceiveFiles(parts: seq<FilePart>): Result<seq<UploadedFile>, UploadError>
  {
    if parts == [] then Success([])
    else
      var front := parts[..|parts| - 1];
      var last := parts[|parts| - 1];
      match ReceiveFiles(front)
      case Failure(e) => Failure(e)
      case Success(files) =>
        match PartError(last, |front|)
        case Some(e) => Failure(e)
        case None => Success(files + [Store(last)])
  }

  /** One step of the middleware: the last part is looked at only when all before it were kept. */
  lemma ReceiveLast(parts: seq<FilePart>)
    requires parts != []
    ensures var front := parts[..|parts| - 1];
      var last := parts[|parts| - 1];
      (ReceiveFiles(front).Failure? ==> ReceiveFiles(parts) == ReceiveFiles(front)) &&
      (ReceiveFiles(front).Success? && PartError(last, |front|).Some? ==>
         ReceiveFiles(parts) == Failure(PartError(last, |front|).value)) &&
      (ReceiveFiles(front).Success? && PartError(last, |front|).None? ==>
         ReceiveFiles(parts) == Success(ReceiveFiles(front).value + [Store(last)]))
  {
  }

  /**
   * The files are kept exactly when no part has an error, and then there is
   * one stored file per part, in order.
   */
  lemma {:induction false} ReceiveKeepsAll(parts: seq<FilePart>)
    ensures ReceiveFiles(parts).Success? <==> forall i :: 0 <= i < |parts| ==> PartError(parts[i], i).None?
    ensures ReceiveFiles(parts).Success? ==>
      |ReceiveFiles(parts).value| == |parts| &&
      forall i :: 0 <= i < |parts| ==> ReceiveFiles(parts).value[i] == Store(parts[i])
  {
    if parts != [] {
      var n := |parts|;
      var front := parts[..n - 1];
      ReceiveKeepsAll(front);
      ReceiveLast(parts);
      if ReceiveFiles(front).Failure? {
        var i :| 0 <= i < n - 1 && PartError(front[i], i).Some?;
        assert parts[i] == front[i];
      } else if PartError(parts[n - 1], n - 1).Some? {
      } else {
        forall i | 0 <= i < n
          ensures PartError(parts[i], i).None? && ReceiveFiles(parts).value[i] == Store(parts[i])
        {
          if i < n - 1 {
            assert parts[i] == front[i];
          }
        }
      }
    }
  }

  /** Part `j` is the first part with an error, and that error is `e`. */
  predicate IsFirstError(parts: seq<FilePart>, j: nat, e: UploadError) {
    j < |parts| && PartError(parts[j], j) == Some(e) &&
    forall i :: 0 <= i < j ==> PartError(parts[i], i).None?
  }

  /** The first error among some leading parts stays the first error after more parts arrive. */
  lemma FirstErrorOfPrefix(parts: seq<FilePart>, k: nat, j: nat, e: UploadError)
    requires k <= |parts| && IsFirstError(parts[..k], j, e)
    ensures IsFirstError(parts, j, e)
  {
    assert forall i :: 0 <= i <= j ==> parts[..k][i] == parts[i];
  }

  /** A refused request carries the error of the first part that has one. */
  lemma {:induction false} ReceiveFirstError(parts: seq<FilePart>)
    ensures ReceiveFiles(parts).Failure? ==> exists j :: IsFirstError(parts, j, ReceiveFiles(parts).error)
  {
    if parts != [] {
      var n := |parts|;
      var front := parts[..n - 1];
      ReceiveLast(parts);
      if ReceiveFiles(front).Failure? {
        ReceiveFirstError(front);
        var j :| IsFirstError(front, j, ReceiveFiles(front).error);
        FirstErrorOfPrefix(parts, n - 1, j, ReceiveFiles(front).error);
      } else if PartError(parts[n - 1], n - 1).Some? {
        ReceiveKeepsAll(front);
        assert forall i :: 0 <= i < n - 1 ==> front[i] == parts[i];
        assert IsFirstError(parts, n - 1, ReceiveFiles(parts).error);
      }
    }
  }

  /** A part without an error, after parts that were all kept, is kept after them. */
  lemma ReceiveOneMore(parts: seq<FilePart>, part: FilePart)
    requires ReceiveFiles(parts).Success? && PartError(part, |parts|).None?
    ensures ReceiveFiles(parts + [part]) == Success(ReceiveFiles(parts).value + [Store(part)])
  {
    var whole := parts + [part];
    assert whole[..|whole| - 1] == parts && whole[|whole| - 1] == part;
    ReceiveLast(whole);
  }

  /**
   * The parts that carry a file, in arrival order: the middleware passes over
   * a part whose file name is empty (a file input left blank) before any
   * check, and such a part is neither counted nor stored.
   */
  function FileParts(parts: seq<FilePart>): (files: seq<FilePart>)
    ensures |files| <= |parts|
    ensures forall i :: 0 <= i < |files| ==> files[i] in parts && files[i].originalName != ""
    ensures forall p :: p in parts && p.originalName != "" ==> p in files
  {
    if parts == [] then []
    else
      var front := parts[..|parts| - 1];
      var last := parts[|parts| - 1];
      assert parts == front + [last];
      if last.originalName == "" then FileParts(front) else FileParts(front) + [last]
  }

  /** One step of passing over blank parts: the last part is kept unless its name is empty. */
  lemma FilePartsLast(parts: seq<FilePart>)
    requires parts != []
    ensures var front := FileParts(parts[..|parts| - 1]);
      var last := parts[|parts| - 1];
      FileParts(parts) == if last.originalName == "" then front else front + [last]
  {
  }

  /**
   * Passing over blank parts works part by part: the file parts of a request
   * are those of its first half followed by those of its second, so their
   * order and number are those of the request.
   */
  lemma {:induction false} FilePartsAppend(first: seq<FilePart>, second: seq<FilePart>)
    ensures FileParts(first + second) == FileParts(first) + FileParts(second)
    decreases |second|
  {
    if second != [] {
      var both := first + second;
      var front := second[..|second| - 1];
      var last := second[|second| - 1];
      assert both[..|both| - 1] == first + front;
      assert both[|both| - 1] == last;
      FilePartsLast(both);
      FilePartsLast(second);
      FilePartsAppend(first, front);
      if last.originalName != "" {
        assert (FileParts(first) + FileParts(front)) + [last] == FileParts(first) + (FileParts(front) + [last]);
      }
    }
    else {
      assert first + second == first;
    }
  }

  /** When every part carries a file, none is passed over. */
  lemma {:induction false} FilePartsOfNamedParts(parts: seq<FilePart>)
    requires forall i :: 0 <= i < |parts| ==> parts[i].originalName != ""
    ensures FileParts(parts) == parts
  {
    if parts != [] {
      var front := parts[..|parts| - 1];
      FilePartsOfNamedParts(front);
      assert parts == front + [parts[|parts| - 1]];
    }
  }

  /** The upload middleware: the checks run over the parts that carry a file. */
  function Receive(parts: seq<FilePart>): Result<seq<UploadedFile>, UploadError>
  {
    ReceiveFiles(FileParts(parts))
  }

  /** A blank file input, wherever it comes, changes nothing. */
  lemma BlankPartIgnored(before: seq<FilePart>, blank: FilePart, after: seq<FilePart>)
    requires blank.originalName == ""
    ensures Receive(before + [blank] + after) == Receive(before + after)
  {
    var none: seq<FilePart> := [];
    assert [blank] == none + [blank];
    assert FileParts([blank]) == [];
    FilePartsAppend(before, [blank]);
    FilePartsAppend(before + [blank], after);
    FilePartsAppend(before, after);
    assert FileParts(before) + [] == FileParts(before);
  }

  /** A request whose only part is a blank file input is let through with no files. */
  lemma BlankPartKeepsNothing(field: string, size: nat, stamp: nat, nonce: nat)
    ensures Receive([FilePart(field, "", size, stamp, nonce)]) == Success([])
  {
    var none: seq<FilePart> := [];
    assert FileParts(none + [FilePart(field, "", size, stamp, nonce)]) == [];
    assert none + [FilePart(field, "", size, stamp, nonce)] == [FilePart(field, "", size, stamp, nonce)];
  }

  /** A part the limits and the filter let through. */
  predicate Acceptable(part: FilePart) {
    part.fieldName == UploadField && IsImageName(part.originalName) && part.size <= MaxFileSize
  }

  /**
   * A request's files are kept exactly when at most ten parts carry a file
   * and each of them is acceptable.
   */
  lemma UploadLimits(parts: seq<FilePart>)
    ensures var files := FileParts(parts);
      Receive(parts).Success? <==>
        |files| <= MaxFiles && forall i :: 0 <= i < |files| ==> Acceptable(files[i])
  {
    var files := FileParts(parts);
    ReceiveKeepsAll(files);
    if |files| > MaxFiles {
      assert PartError(files[MaxFiles], MaxFiles).Some?;
    }
  }
}
