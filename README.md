# Hotel image attachment and hotel-document rules, in Dafny

This project models two pieces of a small hotel-listing service.

**The image-attachment handler** (`backend/src/controllers/imageController.ts`).
A client posts image files together with an `identifier`, which is either a numeric hotel id or a slug.
The upload middleware first passes over any part with an empty file name (a file input left blank).
It lets a request through only if, among the remaining parts:
- its files are under the `images` field;
- there are at most 10 of them;
- each is at most 5 MiB;
- each has an image extension (checked by the file filter).

Each kept file gets a stored name `<timestamp>-<random>-<original name>`.
The handler then resolves the hotel:
- when `parseInt(identifier, 10)` gives a number, it reads the record stored under that id;
- otherwise it searches by slug.

It creates the hotel's `images` list if there is none and appends `/images/<stored name>` for each file, in upload order.
It writes the record back under the hotel's own `id` and replies with the new list.

**The hotel-document rules** (the stand-in for `validationResult` in `backend/src/__tests__/hotelController.test.ts`).
- `isEmpty()` checks that eleven member names are present.
- `array()` returns `{msg, param}` entries for eleven fixed-order rules: truthiness for the text fields, `typeof number` for counts and coordinates, `Array.isArray` for `amenities` and `rooms`.

Files:
- `wrappers.dfy`: `Option` and `Result`.
- `js_numbers.dfy`: `parseInt(s, 10)` and the decimal rendering of a number.
- `documents.dfy`: JSON values and JavaScript truthiness.
- `hotel_rules.dfy`: the document rules.
- `image_upload.dfy`: the file filter, stored names and the upload limits.
- `image_controller.dfy`: the record store (`HotelStore`, a class over `map<int, Hotel>`), identifier dispatch and the handler.

The handler is specified by the ghost predicate `AttachOutcome`. It says:
- a missing or empty identifier gives 400 and the store is unchanged;
- an identifier that designates no record gives 404 and the store is unchanged;
- otherwise some record the identifier designates is rewritten under its `id` with the appended list, and the reply carries that list.

Slug search may pick any stored hotel with the slug, so the outcome is stated with `exists`.
With unique slugs it is determined (`ResolutionUnique`).

## Model

| member | source | states |
|---|---|---|
| `ImageUpload.FileFilter` | backend/src/controllers/imageController.ts:30-35 | a file is accepted exactly when its original name has a `.` and the text after the last `.`, with ASCII letters in lower case, is jpg, jpeg, png, gif or webp; otherwise it is refused with the "Only image files are allowed!" error, and there is no other outcome |
| `ImageUpload.FilterByExtension` | backend/src/controllers/imageController.ts:31 | the filter pattern matches a name iff the name has a `.` and the text after its last `.`, with ASCII letters lowered, is jpg, jpeg, png, gif or webp |
| `ImageUpload.StoredName` | backend/src/controllers/imageController.ts:24-27 | the stored name is at least four characters longer than the original name and ends with it |
| `ImageUpload.StoredNameRoundTrip` | backend/src/controllers/imageController.ts:25 | a stored name can be split back into its timestamp, its random number and the original name |
| `ImageUpload.StoredNameKeepsVerdict` | backend/src/controllers/imageController.ts:25-31 | the stored name passes the filter iff the original name does |
| `ImageUpload.FileParts` | backend/src/controllers/imageController.ts:38-44 | the parts the middleware checks are the parts of the request that carry a file name, and no others |
| `ImageUpload.FilePartsOfNamedParts` | backend/src/controllers/imageController.ts:38-44 | when every part carries a file name, the middleware checks them all |
| `ImageUpload.FilePartsAppend` | backend/src/controllers/imageController.ts:38-44 | the file parts of a request are taken part by part: those of its first half followed by those of its second, so they keep the request's order and multiplicity |
| `ImageUpload.BlankPartIgnored` | backend/src/controllers/imageController.ts:38-44 | a part with an empty file name, wherever it comes in the request, changes neither the outcome nor the kept files |
| `ImageUpload.BlankPartKeepsNothing` | backend/src/controllers/imageController.ts:38-44 | a request whose only part is a blank file input is let through with an empty file list |
| `ImageUpload.ReceiveKeepsAll` | backend/src/controllers/imageController.ts:38-44 | over the parts that carry a file, the checks keep the files iff no part has an error, and then there is one stored file per part, in order |
| `ImageUpload.PartErrorAppliesFilter` | backend/src/controllers/imageController.ts:38-44 | for a part under `images` within the count, the middleware refuses it exactly when the file filter does, with the filter's error, and otherwise only for size |
| `ImageUpload.ReceiveFirstError` | backend/src/controllers/imageController.ts:38-44 | over the parts that carry a file, a refusal carries the error of the first part that has one; every part before it is clean |
| `ImageUpload.UploadLimits` | backend/src/controllers/imageController.ts:38-44 | a request's files are kept iff at most 10 parts carry a file and each of them is under `images`, passes the filter and is at most 5*1024*1024 bytes |
| `ImageUpload.TwoImagePartsAccepted` | backend/src/controllers/imageController.ts:24-44 | `file1.jpg` and `file2.png` under `images` are both kept, in order |
| `JsNumbers.DecimalString` | backend/src/controllers/imageController.ts:25 | a number renders as a non-empty run of digits that starts with `0` only when it is that single digit, as `String(n)` does for n < 10^21 |
| `JsNumbers.DecimalStringValue` | backend/src/controllers/imageController.ts:25 | the rendered digits denote the number rendered |
| `JsNumbers.ParseIntDecimal` | backend/src/controllers/imageController.ts:68 | `parseInt` reads the decimal rendering of n, with any non-digit text after it, as n |
| `JsNumbers.ParseIntNegative` | backend/src/controllers/imageController.ts:68 | `parseInt` reads `-` followed by the rendering of n as -n |
| `JsNumbers.LeadingDigitIsNumber` | backend/src/controllers/imageController.ts:68-69 | a string that starts with a digit is never NaN |
| `JsNumbers.NoDigitIsNaN` | backend/src/controllers/imageController.ts:68-69 | a string with no decimal digit is NaN |
| `ImageController.HotelStore.FindBySlug` | backend/src/controllers/imageController.ts:77 | slug search returns a stored hotel with that slug, or nothing only when no stored hotel has it |
| `ImageController.HotelStore.Resolve` | backend/src/controllers/imageController.ts:65-78 | the hotel found is the one the identifier designates; nothing is found iff the identifier designates no record |
| `ImageController.ResolutionTotal` | backend/src/controllers/imageController.ts:65-83 | an identifier is unresolved iff it designates no hotel at all |
| `ImageController.ResolutionUnique` | backend/src/controllers/imageController.ts:68-78 | when slugs are unique, an identifier designates at most one hotel |
| `ImageController.IdResolves` | backend/src/controllers/imageController.ts:68-74 | the decimal rendering of a stored id designates the record under that id |
| `ImageController.DigitFreeSlugResolves` | backend/src/controllers/imageController.ts:68-78 | a stored hotel whose slug has no digit is designated by its slug |
| `ImageController.DigitLeadingSlugGoesById` | backend/src/controllers/imageController.ts:68-74 | a slug that starts with a digit designates its hotel only if that hotel is stored under the number its leading digits spell |
| `ImageController.DigitSlugParsesAsId` | backend/src/controllers/imageController.ts:68 | "123-hotel" is read as id 123 |
| `ImageController.DigitSlugNotFound` | backend/src/controllers/imageController.ts:68-83 | a hotel stored under id 7 with slug "123-hotel" is not found by that slug |
| `ImageController.HotelStore.AttachImages` | backend/src/controllers/imageController.ts:54-105 | the new store and the reply are as `AttachOutcome` describes: 400 or 404 with the store unchanged, or the resolved record rewritten under its id with the appended list, which the reply also carries |
| `ImageController.HotelStore.UploadImage` | backend/src/controllers/imageController.ts:46-53 | an upload error gives 400 with the error's message and leaves the store unchanged; otherwise the handler body runs on the kept files, or on no file list for a request the middleware did not parse |
| `ImageController.UploadAppendsOnly` | backend/src/controllers/imageController.ts:85-96 | the new list is the old list (or `[]`) followed by `/images/<stored name>` for each file in upload order, so nothing is removed, reordered or merged |
| `ImageController.UploadsCompose` | backend/src/controllers/imageController.ts:85-96 | appending one file list and then another gives the same images list as appending both at once |
| `ImageController.AttachWritesResolvedRecord` | backend/src/controllers/imageController.ts:99-100 | in a store where every record sits under its own id, the write replaces exactly the record that was resolved; the id set, the other records, well-keyedness and slug uniqueness are kept |
| `ImageController.AttachKeepsResolution` | backend/src/controllers/imageController.ts:68-100 | after the write, the same identifier designates the updated hotel |
| `ImageController.SuccessiveUploads` | backend/src/controllers/imageController.ts:54-105 | two successful uploads in a row leave the store as one upload of both file lists would, so no path is lost |
| `ImageController.RepliedImagesArePersisted` | backend/src/controllers/imageController.ts:99-105 | a 200 reply's images list is the list now stored under the id of the hotel the identifier designated |
| `ImageController.TwoImagesAttachedBySlug` | backend/src/controllers/imageController.ts:54-105 | uploading two files by the slug of a hotel with no images leaves it with exactly their two `/images/...` paths, in order, and replies with them |
| `ImageController.UnknownIdNotFound` | backend/src/controllers/imageController.ts:68-83 | an upload to id 9999 when no record has it gives 404 "Hotel not found" and writes no record |
| `HotelRules.IsEmpty` | backend/src/__tests__/hotelController.test.ts:12-40 | `isEmpty()` is true iff all eleven required names are members of the body, whatever their values |
| `HotelRules.ErrorArray` | backend/src/__tests__/hotelController.test.ts:41-80 | `array()` returns the error list of the eleven rules in their fixed order |
| `HotelRules.RulesCoverRequiredFields` | backend/src/__tests__/hotelController.test.ts:14-26 | the rules of `array()` check exactly the names `isEmpty()` requires, in the same order, each once |
| `HotelRules.AbsentMemberFails` | backend/src/__tests__/hotelController.test.ts:45-77 | every rule fails on a missing member |
| `HotelRules.ViolationOrigin` | backend/src/__tests__/hotelController.test.ts:45-79 | every entry is the message and member name of a rule that fails |
| `HotelRules.ViolationsMembership` | backend/src/__tests__/hotelController.test.ts:45-79 | a rule's entry is in the list iff the rule fails |
| `HotelRules.ViolationsInRuleOrder` | backend/src/__tests__/hotelController.test.ts:45-79 | the entries are a subsequence of the rules' entries in rule order, so there is at most one per rule |
| `HotelRules.NoViolationsIffAllPass` | backend/src/__tests__/hotelController.test.ts:45-79 | the list is empty iff every rule passes |
| `HotelRules.NoErrorsImpliesAllPresent` | backend/src/__tests__/hotelController.test.ts:30-39 | an empty `array()` list implies `isEmpty()` |
| `HotelRules.PresenceIsNotValidity` | backend/src/__tests__/hotelController.test.ts:45-46 | a body with every member present but an empty title passes `isEmpty()` yet gets the title entry alone, so the converse fails |
| `HotelRules.NegativeGuestCountAccepted` | backend/src/__tests__/hotelController.test.ts:51-53 | the guest count rule tests only the type: a body with no entry still gets none when its guest count is made negative, whatever the "valid positive number" message says |
| `HotelRules.NegativeSampleAccepted` | backend/src/__tests__/hotelController.test.ts:51-53 | the complete test document with a guest count of -3 gets no entry |
| `HotelRules.OnlyFailingRule` | backend/src/__tests__/hotelController.test.ts:45-79 | when exactly one rule fails, the list is that rule's entry alone |
| `HotelRules.OneMissingMember` | backend/src/__tests__/hotelController.test.ts:45-79 | removing one member from a body that passes every rule gives exactly the entry of that member's rule |
| `HotelRules.SampleHotelAccepted` | backend/src/__tests__/hotelController.test.ts:106-126 | the complete test document passes both checks |
| `HotelRules.PartialHotelRejected` | backend/src/__tests__/hotelController.test.ts:150-170 | the test document with only title, description and guestCount fails `isEmpty()` and gets exactly the eight expected entries, starting with bedroomCount |

## Left out

- Disk storage, directory creation and file reads and writes (imageController.ts:9-18, 20-23, 71-73, 100). The record files become the `map<int, Hotel>` field of `HotelStore`. Image bytes are not modelled.
- Files the middleware already saved stay on disk when the handler then answers 400 "Identifier is required" or 404 "Hotel not found" (imageController.ts:48, 60-63, 80-83); the model says only that no record is written, not that these orphaned image files remain.
- `Date.now()` and `Math.random()` (imageController.ts:25). They become the `stamp` and `nonce` inputs of each `FilePart`. The nonce's range, 0 to 10^9, is not enforced.
- `JSON.parse`, `JSON.stringify`, a failing write and the 500 catch-all (imageController.ts:73, 100, 106-112).
- Console output (imageController.ts:50, 57-58, 107).
- `backend/src/controllers/hotelController.ts` is not part of this model. `getHotelFilePath(id)` is read as "the record stored under key `id`". `findHotelBySlug` is read as "some stored hotel with that slug, or none only when there is none".
- The upload middleware's own code is not part of this model. Its handling is modelled on the library's documented behaviour:
  - a part with an empty file name is passed over before any check, and is neither counted nor stored;
  - the errors "Unexpected field" (wrong field, or an 11th file) and "File too large";
  - for each part, in arrival order: field and count first, then the filter, then the size;
  - a request that is not multipart passes through with no file list.
- `JsNumbers.ParseInt`: returns exact integers. It does not model the precision loss of JavaScript numbers past 2^53, or `-0` (read as 0).
- An `identifier` that is not a string (a JSON number in a non-multipart body) is not modelled.
- An `images` member that is neither absent nor a list of strings is not modelled. `null` counts as absent.
- Concurrent uploads to the same hotel race (last writer wins). The model is sequential.
- The Express routers (`backend/src/routes/*.ts`), the test server lifecycle and the mocked `createHotel` replies (hotelController.test.ts:84-148, 159-183).
- Numbers in documents are exact reals. Floating point is not modelled; the rules only ask whether a value is a number and whether it is zero.
- `HotelRules.ErrorArray`: the source writes eleven `if` statements. The model runs one loop over a table holding the same eleven rules, messages and checks in the same order.
- Two behaviours of the code that its wording does not suggest, modelled as the code has them:
  - the count rules say "must be a valid positive number" but test only `typeof ... === 'number'`, so a negative count passes (`HotelRules.NegativeGuestCountAccepted`);
  - any identifier with a leading run of digits (such as "123-hotel") goes to id lookup, not only all-digit identifiers (`ImageController.DigitSlugNotFound`).
