/**
 * The image-attachment handler: resolve a hotel by numeric id or by slug,
 * append one `/images/<stored name>` path per uploaded file to its images
 * list, and write the record back under the hotel's id.
 */
module ImageController {
  import opened Wrappers
  import opened JsNumbers
  import opened Documents
  import opened ImageUpload

  /** A stored hotel record: its id, its slug, its images list (absent until the first upload) and its other members. */
  datatype Hotel = Hotel(id: int, slug: string, images: Option<seq<string>>, details: Body)

  /** The JSON body of a reply. */
  datatype Reply =
    | Error(error: string)
    | Uploaded(message: string, images: seq<string>)

  datatype Response = Response(status: nat, body: Reply)

  const IdentifierRequired: Response := Response(400, Error("Identifier is required"))
  const HotelNotFound: Response := Response(404, Error("Hotel not found"))
  const UploadSucceeded: string := "Image uploaded successfully"

  /** The public path of a stored file. */
  function ImagePath(file: UploadedFile): string { "/images/" + file.filename }

  function ImagePaths(files: seq<UploadedFile>): (paths: seq<string>)
    ensures |paths| == |files|
    ensures forall i :: 0 <= i < |files| ==> paths[i] == ImagePath(files[i])
  {
    seq(|files|, i requires 0 <= i < |files| => ImagePath(files[i]))
  }

  /**
   * The images list after an upload: the current list, or `[]` when there is
   * none, followed by one path per file when the request carried a file list.
   */
  function UpdatedImages(current: Option<seq<string>>, files: Option<seq<UploadedFile>>): seq<string>
  {
    var base := if current.Some? then current.value else [];
    if files.Some? then base + ImagePaths(files.value) else base
  }

  function WithUploads(h: Hotel, files: Option<seq<UploadedFile>>): Hotel {
    h.(images := Some(UpdatedImages(h.images, files)))
  }

  /**
   * Uploading only appends: the old entries stay first, in their order, and
   * then come the new paths in upload order; nothing is removed or merged.
   */
  lemma UploadAppendsOnly(current: Option<seq<string>>, files: Option<seq<UploadedFile>>)
    ensures var before := if current.Some? then current.value else [];
      var after := UpdatedImages(current, files);
      var added := if files.Some? then |files.value| else 0;
      |after| == |before| + added &&
      after[..|before|] == before &&
      forall i :: 0 <= i < added ==> after[|before| + i] == "/images/" + files.value[i].filename
  {
  }

  /** The paths of two file lists, one after the other, are the paths of the joined list. */
  lemma ImagePathsAppend(first: seq<UploadedFile>, second: seq<UploadedFile>)
    ensures ImagePaths(first + second) == ImagePaths(first) + ImagePaths(second)
  {
    var both := first + second;
    forall i | 0 <= i < |both|
      ensures ImagePaths(both)[i] == (ImagePaths(first) + ImagePaths(second))[i]
    {
      if i >= |first| {
        assert both[i] == second[i - |first|];
      }
    }
  }

  /** Two uploads in a row give the list one upload of both file lists would give. */
  lemma {:induction false} UploadsCompose(current: Option<seq<string>>, first: seq<UploadedFile>, second: seq<UploadedFile>)
    ensures UpdatedImages(Some(UpdatedImages(current, Some(first))), Some(second)) ==
      UpdatedImages(current, Some(first + second))
  {
    var base := if current.Some? then current.value else [];
    ImagePathsAppend(first, second);
    assert (base + ImagePaths(first)) + ImagePaths(second) == base + (ImagePaths(first) + ImagePaths(second));
  }

  /** Every record is stored under its own id. */
  predicate WellKeyed(records: map<int, Hotel>) {
    forall k :: k in records ==> records[k].id == k
  }

  /** No two records share a slug. */
  predicate SlugsUnique(records: map<int, Hotel>) {
    forall k1, k2 :: k1 in records && k2 in records && records[k1].slug == records[k2].slug ==> k1 == k2
  }

  /** `h` is the record stored under some id. */
  predicate Stored(records: map<int, Hotel>, h: Hotel) {
    exists k :: k in records && records[k] == h
  }

  /**
   * `identifier` designates `h`: an identifier that `parseInt` reads as a
   * number designates the record stored under that number and nothing else;
   * any other identifier designates a stored record with that slug.
   */
  predicate ResolvesTo(records: map<int, Hotel>, identifier: string, h: Hotel) {
    match ParseInt(identifier)
    case Some(n) => n in records && records[n] == h
    case None => h.slug == identifier && Stored(records, h)
  }

  /** `identifier` designates no record. */
  predicate Unresolved(records: map<int, Hotel>, identifier: string) {
    match ParseInt(identifier)
    case Some(n) => n !in records
    case None => forall k :: k in records ==> records[k].slug != identifier
  }

  /** An identifier designates some record exactly when it is not unresolved. */
  lemma ResolutionTotal(records: map<int, Hotel>, identifier: string)
    ensures Unresolved(records, identifier) <==> forall h :: !ResolvesTo(records, identifier, h)
  {
    if !Unresolved(records, identifier) {
      match ParseInt(identifier)
      case Some(n) =>
        assert ResolvesTo(records, identifier, records[n]);
      case None =>
        var k :| k in records && records[k].slug == identifier;
        assert ResolvesTo(records, identifier, records[k]);
    }
  }

  /** With unique slugs, an identifier designates at most one record. */
  lemma ResolutionUnique(records: map<int, Hotel>, identifier: string, h1: Hotel, h2: Hotel)
    requires SlugsUnique(records)
    requires ResolvesTo(records, identifier, h1) && ResolvesTo(records, identifier, h2)
    ensures h1 == h2
  {
    if ParseInt(identifier).None? {
      var k1 :| k1 in records && records[k1] == h1;
      var k2 :| k2 in records && records[k2] == h2;
    }
  }

  /** The canonical numeral of a stored non-negative id designates that record. */
  lemma IdResolves(records: map<int, Hotel>, n: nat)
    requires n in records
    ensures ResolvesTo(records, DecimalString(n), records[n])
  {
    ParseIntDecimal(n, "");
    assert DecimalString(n) + "" == DecimalString(n);
  }

  /** A slug without decimal digits designates the hotel that carries it. */
  lemma DigitFreeSlugResolves(records: map<int, Hotel>, h: Hotel)
    requires Stored(records, h)
    requires forall i :: 0 <= i < |h.slug| ==> !IsDigit(h.slug[i])
    ensures ResolvesTo(records, h.slug, h)
  {
    NoDigitIsNaN(h.slug);
  }

  /**
   * A slug that starts with a digit never reaches slug search: it designates
   * its hotel only when that hotel is also stored under the number its
   * leading digits spell.
   */
  lemma DigitLeadingSlugGoesById(records: map<int, Hotel>, h: Hotel)
    requires h.slug != [] && IsDigit(h.slug[0])
    requires ResolvesTo(records, h.slug, h)
    ensures ParseInt(h.slug).Some? && ParseInt(h.slug).value in records
    ensures records[ParseInt(h.slug).value] == h
  {
    LeadingDigitIsNumber(h.slug);
  }

  /** A slug that starts with digits. */
  const DigitSlug: string := "123-hotel"

  /** A store holding one hotel, id 7, whose slug is "123-hotel". */
  const DigitSlugStore: map<int, Hotel> := map[7 := Hotel(7, DigitSlug, None, map[])]

  /** The slug is the numeral 123 followed by "-hotel". */
  lemma DigitSlugSpelled()
    ensures DigitSlug == DecimalString(123) + "-hotel"
  {
    assert DecimalString(1) == "1";
    assert DecimalString(12) == "12";
    assert DecimalString(123) == "123";
  }

  /** "123-hotel" is read as the number 123. */
  lemma DigitSlugParsesAsId()
    ensures ParseInt(DigitSlug) == Some(123)
  {
    DigitSlugSpelled();
    ParseIntDecimal(123, "-hotel");
  }

  /** So the hotel whose slug is "123-hotel" cannot be found by its slug. */
  lemma DigitSlugNotFound()
    ensures Unresolved(DigitSlugStore, DigitSlug)
  {
    DigitSlugParsesAsId();
  }

  /**
   * What one run of the handler body does once the upload middleware has
   * let the request through: `files` is the request's file list, if it has one.
   */
  ghost predicate AttachOutcome(before: map<int, Hotel>, after: map<int, Hotel>,
                                identifier: Option<string>, files: Option<seq<UploadedFile>>,
                                resp: Response)
  {
    if identifier.None? || identifier.value == "" then
      resp == IdentifierRequired && after == before
    else if Unresolved(before, identifier.value) then
      resp == HotelNotFound && after == before
    else
      exists h :: ResolvesTo(before, identifier.value, h) &&
        after == before[h.id := WithUploads(h, files)] &&
        resp == Response(200, Uploaded(UploadSucceeded, UpdatedImages(h.images, files)))
  }

  /** In a well-keyed store the record an identifier designates is the one stored under its id. */
  lemma ResolvedIsStoredUnderId(records: map<int, Hotel>, identifier: string, h: Hotel)
    requires WellKeyed(records) && ResolvesTo(records, identifier, h)
    ensures h.id in records && records[h.id] == h
  {
    if ParseInt(identifier).None? {
      var k :| k in records && records[k] == h;
    }
  }

  /** Writing a record back under its own id keeps the ids and the slugs of every record. */
  lemma WriteBackFrame(records: map<int, Hotel>, h: Hotel, files: Option<seq<UploadedFile>>)
    requires WellKeyed(records) && h.id in records && records[h.id] == h
    ensures var after := records[h.id := WithUploads(h, files)];
      after.Keys == records.Keys && WellKeyed(after) &&
      (SlugsUnique(records) ==> SlugsUnique(after)) &&
      forall k :: k in records && k != h.id ==> after[k] == records[k]
  {
    var after := records[h.id := WithUploads(h, files)];
    assert forall k :: k in after ==> after[k].id == records[k].id && after[k].slug == records[k].slug;
  }

  /**
   * In a well-keyed store the write lands on the record that was read: the
   * set of ids is unchanged, no other record changes, and slugs stay unique
   * and well keyed.
   */
  lemma AttachWritesResolvedRecord(records: map<int, Hotel>, identifier: string, h: Hotel,
                                   files: Option<seq<UploadedFile>>)
    requires WellKeyed(records) && ResolvesTo(records, identifier, h)
    ensures h.id in records && records[h.id] == h
    ensures var after := records[h.id := WithUploads(h, files)];
      after.Keys == records.Keys && WellKeyed(after) &&
      (SlugsUnique(records) ==> SlugsUnique(after)) &&
      forall k :: k in records && k != h.id ==> after[k] == records[k]
  {
    ResolvedIsStoredUnderId(records, identifier, h);
    WriteBackFrame(records, h, files);
  }

  /** After an upload the same identifier still designates the updated hotel. */
  lemma AttachKeepsResolution(records: map<int, Hotel>, identifier: string, h: Hotel,
                              files: Option<seq<UploadedFile>>)
    requires WellKeyed(records) && ResolvesTo(records, identifier, h)
    ensures ResolvesTo(records[h.id := WithUploads(h, files)], identifier, WithUploads(h, files))
  {
    AttachWritesResolvedRecord(records, identifier, h, files);
  }

  /** The hotel a successful outcome wrote, and what it wrote. */
  lemma SuccessfulOutcome(before: map<int, Hotel>, after: map<int, Hotel>, identifier: string,
                          files: Option<seq<UploadedFile>>, resp: Response) returns (h: Hotel)
    requires AttachOutcome(before, after, Some(identifier), files, resp)
    requires identifier != "" && !Unresolved(before, identifier)
    ensures ResolvesTo(before, identifier, h) && after == before[h.id := WithUploads(h, files)]
    ensures resp == Response(200, Uploaded(UploadSucceeded, UpdatedImages(h.images, files)))
  {
    h :| ResolvesTo(before, identifier, h) && after == before[h.id := WithUploads(h, files)] &&
      resp == Response(200, Uploaded(UploadSucceeded, UpdatedImages(h.images, files)));
  }

  /** After a first upload, the identifier designates the updated hotel and nothing else. */
  lemma FirstUploadThenResolve(r0: map<int, Hotel>, identifier: string, h: Hotel, files: Option<seq<UploadedFile>>)
    requires WellKeyed(r0) && SlugsUnique(r0) && ResolvesTo(r0, identifier, h)
    ensures var r1 := r0[h.id := WithUploads(h, files)];
      !Unresolved(r1, identifier) &&
      forall g :: ResolvesTo(r1, identifier, g) ==> g == WithUploads(h, files)
  {
    var r1 := r0[h.id := WithUploads(h, files)];
    AttachWritesResolvedRecord(r0, identifier, h, files);
    AttachKeepsResolution(r0, identifier, h, files);
    ResolutionTotal(r1, identifier);
    forall g | ResolvesTo(r1, identifier, g) ensures g == WithUploads(h, files) {
      ResolutionUnique(r1, identifier, g, WithUploads(h, files));
    }
  }

  /**
   * Two successful uploads to one hotel, one after the other, leave the
   * store as a single upload of both file lists would: no path is lost.
   */
  lemma SuccessiveUploads(r0: map<int, Hotel>, r1: map<int, Hotel>, r2: map<int, Hotel>,
                          identifier: string, first: seq<UploadedFile>, second: seq<UploadedFile>,
                          resp1: Response, resp2: Response)
    requires WellKeyed(r0) && SlugsUnique(r0)
    requires AttachOutcome(r0, r1, Some(identifier), Some(first), resp1) && resp1.status == 200
    requires AttachOutcome(r1, r2, Some(identifier), Some(second), resp2)
    ensures resp2.status == 200
    ensures exists h :: ResolvesTo(r0, identifier, h) && r2 == r0[h.id := WithUploads(h, Some(first + second))]
  {
    assert identifier != "" && !Unresolved(r0, identifier);
    var h := SuccessfulOutcome(r0, r1, identifier, Some(first), resp1);
    FirstUploadThenResolve(r0, identifier, h, Some(first));
    var g := SuccessfulOutcome(r1, r2, identifier, Some(second), resp2);
    var both := WithUploads(h, Some(first + second));
    UploadsCompose(h.images, first, second);
    assert WithUploads(g, Some(second)) == both;
    assert r2 == r0[h.id := both];
  }

  /** On success the reply's images list is the list now stored in the record that was written. */
  lemma RepliedImagesArePersisted(before: map<int, Hotel>, after: map<int, Hotel>, identifier: string,
                                  files: Option<seq<UploadedFile>>, resp: Response)
    requires AttachOutcome(before, after, Some(identifier), files, resp) && resp.status == 200
    ensures resp.body.Uploaded?
    ensures exists h ::
              ResolvesTo(before, identifier, h) && h.id in after && after[h.id].images == Some(resp.body.images)
  {
    var h := SuccessfulOutcome(before, after, identifier, files, resp);
    assert after[h.id].images == Some(resp.body.images);
  }

  /** Two image files, `file1.jpg` and `file2.png`, sent under the `images` field. */
  function TwoImageParts(stamp1: nat, nonce1: nat, stamp2: nat, nonce2: nat): seq<FilePart> {
    [FilePart("images", "file1.jpg", 2048, stamp1, nonce1), FilePart("images", "file2.png", 4096, stamp2, nonce2)]
  }

  lemma SampleNamesAreImages()
    ensures IsImageName("file1.jpg") && IsImageName("file2.png")
  {
    assert "jpg" in ImageExtensions && "png" in ImageExtensions;
    assert "file1.jpg"[6..] == "jpg" && Lower("jpg") == "jpg";
    assert EndsWithExtension("file1.jpg", "jpg");
    assert "file2.png"[6..] == "png" && Lower("png") == "png";
    assert EndsWithExtension("file2.png", "png");
  }

  lemma TwoPartsKept(p0: FilePart, p1: FilePart)
    requires PartError(p0, 0).None? && PartError(p1, 1).None?
    ensures ReceiveFiles([p0, p1]) == Success([Store(p0), Store(p1)])
  {
    var none: seq<FilePart> := [];
    assert ReceiveFiles(none) == Success([]);
    ReceiveOneMore(none, p0);
    assert none + [p0] == [p0];
    assert ReceiveFiles(none).value + [Store(p0)] == [Store(p0)];
    ReceiveOneMore([p0], p1);
    assert [p0] + [p1] == [p0, p1];
    assert [Store(p0)] + [Store(p1)] == [Store(p0), Store(p1)];
  }

  /** Two parts that carry files and pass every check are both kept, in order. */
  lemma TwoFilePartsKept(p0: FilePart, p1: FilePart)
    requires p0.originalName != "" && p1.originalName != ""
    requires PartError(p0, 0).None? && PartError(p1, 1).None?
    ensures Receive([p0, p1]) == Success([Store(p0), Store(p1)])
  {
    FilePartsOfNamedParts([p0, p1]);
    TwoPartsKept(p0, p1);
  }

  /** The middleware keeps both files, in order. */
  lemma TwoImagePartsAccepted(stamp1: nat, nonce1: nat, stamp2: nat, nonce2: nat)
    ensures var parts := TwoImageParts(stamp1, nonce1, stamp2, nonce2);
      Receive(parts) == Success([Store(parts[0]), Store(parts[1])])
  {
    var parts := TwoImageParts(stamp1, nonce1, stamp2, nonce2);
    SampleNamesAreImages();
    assert parts == [parts[0], parts[1]];
    TwoFilePartsKept(parts[0], parts[1]);
  }

  /** "test-hotel" holds no digit, so it is NaN to `parseInt` and goes to slug search. */
  lemma SampleSlugIsNaN()
    ensures ParseInt("test-hotel") == None
  {
    NoDigitIsNaN("test-hotel");
  }

  /**
   * Uploading the two files by the slug of a hotel without images leaves it
   * with exactly two entries, one `/images/<stored name>` per file, in order.
   */
  lemma TwoImagesAttachedBySlug(records: map<int, Hotel>, after: map<int, Hotel>, h: Hotel,
                                stamp1: nat, nonce1: nat, stamp2: nat, nonce2: nat, resp: Response)
    requires Stored(records, h) && h.slug == "test-hotel" && h.images.None? && SlugsUnique(records)
    requires var parts := TwoImageParts(stamp1, nonce1, stamp2, nonce2);
      AttachOutcome(records, after, Some("test-hotel"), Some([Store(parts[0]), Store(parts[1])]), resp)
    ensures resp == Response(200, Uploaded(UploadSucceeded, [
      "/images/" + StoredName(stamp1, nonce1, "file1.jpg"),
      "/images/" + StoredName(stamp2, nonce2, "file2.png")]))
    ensures after == records[h.id := h.(images := Some(resp.body.images))]
  {
    var parts := TwoImageParts(stamp1, nonce1, stamp2, nonce2);
    var files := [Store(parts[0]), Store(parts[1])];
    var paths := ["/images/" + StoredName(stamp1, nonce1, "file1.jpg"),
                  "/images/" + StoredName(stamp2, nonce2, "file2.png")];
    SampleSlugIsNaN();
    assert ResolvesTo(records, "test-hotel", h);
    ResolutionTotal(records, "test-hotel");
    var g := SuccessfulOutcome(records, after, "test-hotel", Some(files), resp);
    ResolutionUnique(records, "test-hotel", g, h);
    assert ImagePaths(files) == paths;
    assert UpdatedImages(h.images, Some(files)) == paths;
  }

  /** "9999" is read as the number 9999. */
  lemma UnknownIdParses()
    ensures ParseInt("9999") == Some(9999)
  {
    assert DecimalString(9) == "9";
    assert DecimalString(99) == "99";
    assert DecimalString(999) == "999";
    assert DecimalString(9999) == "9999";
    ParseIntDecimal(9999, "");
    assert "9999" + "" == "9999";
  }

  /** An upload to id 9999 when no record has that id is refused with 404 and writes no record. */
  lemma UnknownIdNotFound(records: map<int, Hotel>, after: map<int, Hotel>,
                          files: Option<seq<UploadedFile>>, resp: Response)
    requires 9999 !in records
    requires AttachOutcome(records, after, Some("9999"), files, resp)
    ensures resp == HotelNotFound && after == records
  {
    UnknownIdParses();
  }

  /** The hotel records, keyed by id, as the handler reads and writes them. */
  class HotelStore {
    var records: map<int, Hotel>

    constructor (initial: map<int, Hotel>)
      ensures records == initial
    {
      records := initial;
    }

    /** Slug search: some stored hotel with that slug, or `None` when no stored hotel has it. */
    method FindBySlug(slug: string) returns (found: Option<Hotel>)
      ensures found.Some? ==> found.value.slug == slug && Stored(records, found.value)
      ensures found.None? ==> forall k :: k in records ==> records[k].slug != slug
    {
      if exists k :: k in records && records[k].slug == slug {
        var k :| k in records && records[k].slug == slug;
        found := Some(records[k]);
      } else {
        found := None;
      }
    }

    /**
     * Dispatch on `parseInt(identifier, 10)`: a number reads only the record
     * stored under it; NaN goes to slug search.
     */
    method Resolve(identifier: string) returns (found: Option<Hotel>)
      ensures found.Some? ==> ResolvesTo(records, identifier, found.value)
      ensures found.None? <==> Unresolved(records, identifier)
    {
      var hotelId := ParseInt(identifier);
      if hotelId.Some? {
        if hotelId.value in records {
          found := Some(records[hotelId.value]);
        } else {
          found := None;
        }
      } else {
        found := FindBySlug(identifier);
      }
    }

    /** The handler body after the upload middleware: check, resolve, append, write back. */
    method AttachImages(identifier: Option<string>, files: Option<seq<UploadedFile>>) returns (resp: Response)
      modifies this
      ensures AttachOutcome(old(records), records, identifier, files, resp)
    {
      if identifier.None? || identifier.value == "" {
        return IdentifierRequired;
      }
      var found := Resolve(identifier.value);
      if found.None? {
        return HotelNotFound;
      }
      var hotel := found.value;
      ghost var resolved := hotel;
      if hotel.images.None? {
        hotel := hotel.(images := Some([]));
      }
      if files.Some? {
        hotel := hotel.(images := Some(hotel.images.value + ImagePaths(files.value)));
      }
      assert hotel == WithUploads(resolved, files);
      records := records[hotel.id := hotel];
      resp := Response(200, Uploaded(UploadSucceeded, hotel.images.value));
    }

    /**
     * The whole handler. `upload` is the request's file parts when it is a
     * multipart request; any other request passes the middleware untouched
     * and reaches the handler body without a file list.
     */
    method UploadImage(identifier: Option<string>, upload: Option<seq<FilePart>>) returns (resp: Response)
      modifies this
      ensures upload.None? ==> AttachOutcome(old(records), records, identifier, None, resp)
      ensures upload.Some? && Receive(upload.value).Failure? ==>
        resp == Response(400, Error(ErrorMessage(Receive(upload.value).error))) && records == old(records)
      ensures upload.Some? && Receive(upload.value).Success? ==>
        AttachOutcome(old(records), records, identifier, Some(Receive(upload.value).value), resp)
    {
      if upload.None? {
        resp := AttachImages(identifier, None);
      } else {
        var received := Receive(upload.value);
        if received.Failure? {
          return Response(400, Error(ErrorMessage(received.error)));
        }
        resp := AttachImages(identifier, Some(received.value));
      }
    }
  }
}
