# loyalty-api core, modelled in Dafny

loyalty-api is a Go HTTP service for a loyalty programme. Users register with a CPF (Brazilian taxpayer number). They are stored in a MongoDB collection and can submit the URL of an electronic consumer invoice (NFC-e) page, from which the service scrapes the invoice header and its lines. This project models the three parts of the service that hold its logic:

- **The invoice extractor** (`ExtractService.ExtractData`). It fetches a page and reads:
  - the invoice number and issue date from the `#collapse4` table;
  - the issuer's CNPJ, the Brazilian company number, from the cells that contain "CNPJ";
  - one invoice line per row of the line-item table (name, code, quantity, unit and value).

  Three regular expressions pick the numbers out of the texts: `[0-9,.]+`, `Código: (\d+)` and the CNPJ pattern. They are modelled as scanners with leftmost-match semantics (module `Patterns`). Each scanner is proved to be the only function satisfying its contract.
- **Two helpers**:
  - `IsValidCPF`, the mod-11 check-digit test, modelled as a method with the source's two loops. It is proved equal to a declarative acceptance predicate.
  - `HideEmailPart`, which masks the local part of an e-mail address.
- **The user store** (`UserService`). It is a class over a map from 12-byte document ids to users. Each write is first stated as a function from the collection before to the outcome (result and collection after). The methods are then proved to produce exactly that outcome and to keep the invariant that each stored user's `id` is the lowercase hex of its key. The driver's `ObjectIDFromHex` and `ObjectID.Hex` are modelled alongside (module `ObjectIds`), with both round trips proved.

Go strings are byte sequences. Here they are `seq<Byte>`, where a `Byte` is a character below 256, and text outside ASCII appears as its UTF-8 bytes ("Código" is `C\U{C3}\U{B3}digo`).

Files:

- `wrappers.dfy`: Option and Result.
- `gostrings.dfy`: TrimSpace, ReplaceAll, Index, Split, Join and Repeat from Go's `strings` package.
- `patterns.dfy`: the three regular expressions.
- `models.dfy`: the records.
- `extract_service.dfy`: the extractor.
- `utils.dfy`: CPF check and e-mail masking.
- `object_ids.dfy`: document ids.
- `user_service.dfy`: the user store.

Notes on the code's behaviour:

- The extractor accepts only status 200, not any 2xx status.
- The CNPJ is searched in the text of all CNPJ cells joined together, so a CNPJ split across two cells is still found (`CnpjAcrossCells`).
- `UpdateUser` re-checks the CPF's digits but not its uniqueness, so an update can give two users the same CPF (`UpdateCanDuplicateCpf`).
- `UpdateUser` writes the incoming record with `$set`, and its `id` field (tagged `_id,omitempty`) goes along whenever it is non-empty, as a string. The stored `_id` is an ObjectId, so the server refuses the update: only a record with an empty `id` can be written, and a record sent back as `GetUser` returned it is refused (`SentBackRecordRefused`).
- CPF uniqueness compares the stored text exactly, so "529.982.247-25" and "52998224725" count as different CPFs.

## Model

| member | source | states |
|---|---|---|
| GoStrings.TrimSpace | internal/services/extract_service.go:51-52 | the result has no outer white space and is what `s` holds between a white-space prefix and a white-space suffix |
| GoStrings.TrimSpaceUnique | internal/services/extract_service.go:51-52 | any string meeting TrimSpace's contract equals TrimSpace(s), so the contract pins the result down |
| GoStrings.TrimSpaceOfTrimmed | internal/services/extract_service.go:72 | text without outer white space is left as it is |
| GoStrings.TrimSpaceIdempotent | internal/services/extract_service.go:51-52 | trimming twice is trimming once |
| GoStrings.TrimSpaceExample | internal/services/extract_service.go:75 | " \tWidget Pro \r\n" trims to "Widget Pro": outer tabs, spaces and line breaks go, the inner space stays |
| GoStrings.RemoveAll | pkg/utils/utils.go:40-41 | the removed byte no longer occurs, and text without it is unchanged |
| GoStrings.RemoveAllKeepsAbsent | pkg/utils/utils.go:40-41 | removing one byte never introduces another that was absent |
| GoStrings.RemoveAllConcat | pkg/utils/utils.go:40-41 | removal distributes over concatenation |
| GoStrings.IndexOf | pkg/utils/utils.go:102 | the position of the first occurrence of the byte, or the length when it is absent |
| GoStrings.IndexOfUnique | pkg/utils/utils.go:102 | a position holding the byte with no earlier occurrence is the one IndexOf returns |
| GoStrings.Split | pkg/utils/utils.go:102 | one more piece than there are separators, no piece contains the separator, and joining the pieces with it gives back the input |
| GoStrings.SplitCons | pkg/utils/utils.go:102 | the pieces of head + sep + tail are head followed by the pieces of tail |
| GoStrings.SeparatorCount | pkg/utils/utils.go:102-103 | a separator after a separator-free head adds one to the separator count |
| GoStrings.Repeat | pkg/utils/utils.go:109 | `strings.Repeat` of one byte: n copies of that byte and nothing else |
| Patterns.LeftmostMatch | internal/services/extract_service.go:43-47 | the first position at or after `from` where the pattern can start a match, with no match before it |
| Patterns.SpanEnd | internal/services/extract_service.go:43-45 | the end of the maximal run of the class from a position on: every byte before it is in the class, the byte at it is not |
| Patterns.FindNumber | internal/services/extract_service.go:43 | `FindString` of `[0-9,.]+`: empty exactly when no digit, comma or period occurs, otherwise the maximal run at the leftmost such byte |
| Patterns.FindCode | internal/services/extract_service.go:45 | the capture of `Código: (\d+)`: empty exactly when no marker is followed by a digit, otherwise the maximal digit run after the leftmost such marker |
| Patterns.FindCnpj | internal/services/extract_service.go:47 | the capture of the CNPJ pattern: empty exactly when there is no match, otherwise a `dd.ddd.ddd/dddd-dd` string following the leftmost "CNPJ: " that it follows |
| Patterns.FirstMatchUnique | internal/services/extract_service.go:43-47 | the leftmost match position is unique |
| Patterns.RunAtUnique | internal/services/extract_service.go:43-45 | a maximal run is determined by its start |
| Patterns.FindNumberUnique | internal/services/extract_service.go:43 | FindNumber's contract determines its result, so the contract is the whole meaning of the regex |
| Patterns.FindCodeUnique | internal/services/extract_service.go:45 | FindCode's contract determines its result |
| Patterns.FindCnpjUnique | internal/services/extract_service.go:47 | FindCnpj's contract determines its result |
| Patterns.CnpjMatchInPrefix | internal/services/extract_service.go:47 | whether a CNPJ match starts at a position depends only on the bytes the match spans |
| Patterns.FindCnpjPrefixStable | internal/services/extract_service.go:53-54 | a CNPJ found in a text is still the one found after more text is appended |
| Patterns.PriceExample | internal/services/extract_service.go:76 | "R$ 9,90" reads as "9,90" |
| Patterns.QuantityExample | internal/services/extract_service.go:74 | "1.234,56 UN 7" reads as "1.234,56": only the first run counts |
| Patterns.PeriodOnlyExample | internal/services/extract_service.go:43 | "Un." reads as ".": a run of a lone period is a result |
| Patterns.NoNumberExample | internal/services/extract_service.go:43 | "UN" reads as the empty string |
| Patterns.CodeExample | internal/services/extract_service.go:63-66 | "Código: 00123abc" gives the code "00123" |
| Patterns.CodeAfterNameExample | internal/services/extract_service.go:63-66 | the code is found after the product name in the first cell |
| Patterns.LabelledQuantityExample | internal/services/extract_service.go:74 | "qty 3,0" reads as "3,0" |
| Patterns.SkippedMarkerExample | internal/services/extract_service.go:45 | a "Código: " not followed by a digit is skipped and the next one used |
| Patterns.CnpjExample | internal/services/extract_service.go:54-56 | "CNPJ: 12.345.678/0001-99" gives "12.345.678/0001-99" |
| Patterns.CnpjShapeExample | internal/services/extract_service.go:47 | "12.345.678/0001-99" has the CNPJ shape |
| Patterns.TornCnpjExample | internal/services/extract_service.go:55-58 | neither half of a CNPJ split in two is matched on its own |
| Patterns.UnformattedCnpjExample | internal/services/extract_service.go:55-58 | an unformatted CNPJ is not matched, so the field stays empty |
| ExtractService.ProductFields | internal/services/extract_service.go:63-77 | the name and unit have no outer white space, the code is all digits, quantity and value are runs of `[0-9,.]`, and each of code, quantity and value is empty exactly when its pattern does not match its cell |
| ExtractService.ProductOf | internal/services/extract_service.go:63-77 | the line one row yields: its name and unit carry no outer white space and its code is all digits (the full field rules are ProductFields) |
| ExtractService.ExtractProducts | internal/services/extract_service.go:62-79 | one line per row in document order, line i being the reading of row i alone |
| ExtractService.ExtractData | internal/services/extract_service.go:20-82 | a transport error, a status other than 200 or an unparsable body each give their error, no lines and an empty header; a parsed page gives no error, the trimmed header cells (empty when absent), the first CNPJ of the CNPJ cells (well formed or empty) and one line per row |
| ExtractService.Concat | internal/services/extract_service.go:53 | `Text()` of several cells: nothing for no cell, the cell's own text for one, and a text at least as long as each cell's |
| ExtractService.CnpjFromFirstCell | internal/services/extract_service.go:53-59 | when the first CNPJ cell holds a well-formed CNPJ, that one is taken whatever follows |
| ExtractService.CnpjAcrossCells | internal/services/extract_service.go:53-54 | a CNPJ split over two cells is found in their joined text although neither cell holds it |
| ExtractService.WidgetCells | internal/services/extract_service.go:71-77 | the cells of a sample row read as name "Widget", code "42", quantity "3,0", unit "UN" and value "9,90" |
| ExtractService.TrimmedWordExample | internal/services/extract_service.go:72 | a word with no outer white space trims to itself |
| Utils.AtoiByte | pkg/utils/utils.go:48 | `Atoi` of one byte with the error dropped: the digit's value, and 0 for a non-digit |
| Utils.DigitChar | pkg/utils/utils.go:68 | `Itoa` of a digit: a digit byte whose value is that digit |
| Utils.Stripped | pkg/utils/utils.go:40-41 | the CPF with every '.' and '-' removed contains neither |
| Utils.CheckDigit | pkg/utils/utils.go:51-56 | the mod-11 check digit is a single digit |
| Utils.Accepted | pkg/utils/utils.go:39-69 | the verdict of IsValidCPF as a predicate; an accepted CPF strips to eleven bytes whose last two are digits |
| Utils.WeightedSumBounds | pkg/utils/utils.go:47-61 | the sum each of the two loops accumulates (WeightedSum) lies between 0 and 9 times the sum of its weights, each term being a digit value times a positive weight |
| Utils.IsValidCpf | pkg/utils/utils.go:39-69 | the two loops compute exactly the acceptance predicate: eleven bytes after stripping, with bytes 9 and 10 spelling the two check digits |
| Utils.AcceptedIffCheckDigits | pkg/utils/utils.go:47-68 | acceptance in numbers, both directions: bytes 9 and 10 are digits whose values are the check digits of the sums weighted 10..2 and 11..2 |
| Utils.WrongLengthRejected | pkg/utils/utils.go:42-44 | a CPF that is not eleven bytes once stripped is rejected |
| Utils.StrippedConcat | pkg/utils/utils.go:40-41 | stripping works piece by piece |
| Utils.StrippedDropsEmptyPiece | pkg/utils/utils.go:40-41 | a piece that strips to nothing can be dropped |
| Utils.SeparatorIgnored | pkg/utils/utils.go:40-41 | inserting a '.' or '-' anywhere never changes the verdict |
| Utils.WeightedSumByValues | pkg/utils/utils.go:47-50 | weighted sums depend only on the digit values of the bytes |
| Utils.AcceptedByValues | pkg/utils/utils.go:47-68 | for separator-free input, the verdict depends only on the values of the first nine bytes and on the last two bytes |
| Utils.AcceptedBySums | pkg/utils/utils.go:51-68 | for separator-free input, the verdict depends only on the two weighted sums and on the last two bytes |
| Utils.UpdateKeepsStripped | pkg/utils/utils.go:40-41 | replacing a byte by a non-separator keeps separator-free text separator-free |
| Utils.NonDigitCountsAsZero | pkg/utils/utils.go:48 | a non-digit among the first nine bytes counts as the digit 0 |
| Utils.WeightedSumOfRepeat | pkg/utils/utils.go:47-50 | bytes of one value v weigh v times the sum of the weights |
| Utils.CheckDigitOfRepeat | pkg/utils/utils.go:51-67 | the check digits of 54v and 65v are v |
| Utils.RepeatedDigitAccepted | pkg/utils/utils.go:39-69 | eleven equal digits are accepted, because the rule has no special case for them |
| Utils.ValidCpfFirstSum | pkg/utils/utils.go:47-50 | the first weighted sum of 52998224725 is 295 |
| Utils.ValidCpfSecondSum | pkg/utils/utils.go:58-61 | the second weighted sum of 52998224725 is 347 |
| Utils.ValidCpfExample | pkg/utils/utils.go:39-69 | 52998224725 is accepted |
| Utils.WrongCheckDigitExample | pkg/utils/utils.go:62-68 | 52998224726, with its last check digit wrong, is rejected |
| Utils.NonDigitQuirkExample | pkg/utils/utils.go:48 | "a0000000000" is accepted, the letter being read as 0 |
| Utils.MaskedShape | pkg/utils/utils.go:106-111 | masking local@domain keeps the length, the single '@' and its position, the domain and the first two bytes of the local part, and stars the rest of the local part |
| Utils.MaskLocal | pkg/utils/utils.go:108-110 | the masked local part has the same length, keeps its first two bytes and has '*' everywhere after them |
| Utils.HideEmailPart | pkg/utils/utils.go:101-112 | the length and '@' count are kept; input without exactly one '@' is returned unchanged; otherwise everything from the '@' on and the first two local bytes are kept and the other local bytes become '*' |
| Utils.MaskDetermined | pkg/utils/utils.go:106-111 | two strings of that shape for the same '@' position are equal, so the shape determines the mask |
| Utils.MaskMatches | pkg/utils/utils.go:101-112 | any string of the promised shape is HideEmailPart's result |
| Utils.HideEmailPartKeepsAt | pkg/utils/utils.go:111 | masking leaves the '@' where it was |
| Utils.HideEmailPartIdempotent | pkg/utils/utils.go:101-112 | masking twice is masking once |
| Utils.ShortLocalPartUnchanged | pkg/utils/utils.go:108-110 | a local part of at most two bytes is not masked |
| Utils.AtCountExample | pkg/utils/utils.go:102-103 | "john@mail.com" has exactly one '@' |
| Utils.AtIndexExample | pkg/utils/utils.go:102 | the '@' of "john@mail.com" is at byte 4 |
| Utils.MaskedAtFour | pkg/utils/utils.go:108-111 | a four-byte local part is shown as its first two bytes and two stars |
| Utils.ShownExample | pkg/utils/utils.go:109-111 | "jo**@mail.com" agrees with "john@mail.com" from the '@' on and in its first two bytes |
| Utils.HideEmailExample | pkg/utils/utils.go:101-112 | "john@mail.com" is shown as "jo**@mail.com" |
| ObjectIds.HexValue | internal/services/user_service.go:38 | the value of a hex digit in either case is below 16 |
| ObjectIds.HexDigit | internal/services/user_service.go:38 | the lowercase digit for a value below 16 has that value |
| ObjectIds.PairAt | internal/services/user_service.go:38 | the byte two hex digits spell is high * 16 + low |
| ObjectIds.FromHex | internal/services/user_service.go:38-41 | `ObjectIDFromHex` succeeds exactly on 24 hex digits of either case, byte i being spelled by digits 2i and 2i+1 |
| ObjectIds.ToHex | internal/services/user_service.go:43 | an id prints as 24 lowercase hex digits |
| ObjectIds.NibbleDigit | internal/services/user_service.go:38 | digit j of the printed id is the high nibble of byte j/2 for even j and the low nibble for odd j |
| ObjectIds.ToHexNibbles | internal/services/user_service.go:38 | digits 2i and 2i+1 of the printed id spell byte i |
| ObjectIds.FromHexToHex | internal/services/user_service.go:38 | parsing a printed id gives the id back |
| ObjectIds.ToHexFromHex | internal/services/user_service.go:38 | lowercase hex text that parses is the printed form of its id |
| ObjectIds.NibblesOfPair | internal/services/user_service.go:38 | the nibbles of hi * 16 + lo are hi and lo |
| ObjectIds.LowerHexDigitUnique | internal/services/user_service.go:38 | a lowercase hex digit is determined by its value |
| ObjectIds.CaseInsensitive | internal/services/user_service.go:38 | texts whose digits have the same values, whatever their case, parse to the same id |
| Users.AfterCreate | internal/services/user_service.go:22-34 | an invalid CPF, then a CPF already stored, then a generated id already present each give their error and leave the collection alone, each stated both ways; otherwise exactly one user is added under the generated id, with its id field set to that id's hex |
| Users.CpfTaken | internal/services/user_service.go:87-93 | the `{"cpf": cpf}` filter matches some stored document, stated both over the keys and over the stored users |
| Users.Merge | internal/services/user_service.go:65-74 | the stored record after an update: an empty password or status keeps the stored one, a non-empty one replaces it, the document id never changes, and every other field is the incoming one |
| Users.AfterUpdate | internal/services/user_service.go:47-76 | an invalid CPF, then a malformed id, then a missing user, then a non-empty incoming id each give their error (both directions) and change nothing; success exactly when none of them applies, and then only that user changes, to the merged record |
| Users.AfterDelete | internal/services/user_service.go:78-85 | a malformed id is the only error; otherwise that key is gone, every other user is unchanged, and the count removed is 1 or 0 with the size dropping by it |
| Users.AfterPasswordUpdate | internal/services/user_service.go:96-105 | a malformed id is the only error; a missing user changes nothing; otherwise only that user changes, its password becoming the hash and its status ACTIVE |
| Users.CreateKeepsWellKeyed | internal/services/user_service.go:22-34 | create keeps every stored id equal to the hex of its key |
| Users.UpdateKeepsWellKeyed | internal/services/user_service.go:47-76 | update keeps every stored id equal to the hex of its key |
| Users.DeleteKeepsWellKeyed | internal/services/user_service.go:78-85 | delete keeps every stored id equal to the hex of its key |
| Users.PasswordUpdateKeepsWellKeyed | internal/services/user_service.go:96-105 | the password reset keeps every stored id equal to the hex of its key |
| Users.CreateKeepsUniqueCpfs | internal/services/user_service.go:26-32 | create never lets two users share a CPF text |
| Users.CreatedUserReadable | internal/services/user_service.go:33-44 | a created user is stored under its id and can be read back through that id's hex text |
| Users.DeleteTwice | internal/services/user_service.go:78-85 | deleting twice is deleting once, and the second call removes nothing |
| Users.MergeSelf | internal/services/user_service.go:65-74 | sending the stored record back with its id cleared changes nothing |
| Users.MergeIdempotent | internal/services/user_service.go:65-74 | repeating an update with the same record changes nothing more |
| Users.TwoUsersUnique | internal/services/user_service.go:26-32 | two users with different CPF texts have unique CPFs |
| Users.SharedCpfAfterUpdate | internal/services/user_service.go:47-76 | updating a user, through a record without id, to another user's valid CPF succeeds and leaves two users sharing it |
| Users.SentBackRecordRefused | internal/services/user_service.go:66-75 | updating a user with the very record stored for it, whose id field is the hex of its key, is refused with ImmutableId |
| Users.UpdateCanDuplicateCpf | internal/services/user_service.go:47-76 | starting from two users with unique accepted CPFs, an update succeeds that makes them share one |
| Users.UniqueCpfDeterminesUser | internal/services/user_service.go:107-112 | with unique CPFs, the user found by CPF is determined |
| Users.UserService.constructor | internal/services/user_service.go:18-20 | the service wraps the given collection |
| Users.UserService.UserExistsByCpf | internal/services/user_service.go:87-94 | true exactly when some stored user has that CPF text |
| Users.UserService.CreateUser | internal/services/user_service.go:22-34 | the result and the new collection are AfterCreate's, and the id invariant holds |
| Users.UserService.GetUser | internal/services/user_service.go:36-45 | a malformed id is InvalidId and a missing user NotFound; a well-formed id of a stored user returns that user, whose id field parses to the requested id |
| Users.UserService.UpdateUser | internal/services/user_service.go:47-76 | the result and the new collection are AfterUpdate's, and the id invariant holds |
| Users.UserService.DeleteUser | internal/services/user_service.go:78-85 | the result and the new collection are AfterDelete's, and the id invariant holds |
| Users.UserService.UpdatePassword | internal/services/user_service.go:96-105 | the result and the new collection are AfterPasswordUpdate's, and the id invariant holds |
| Users.UserService.GetUserByCpf | internal/services/user_service.go:107-112 | NotFound exactly when no stored user has that CPF text; otherwise a stored user with that CPF |

## Left out

- HTTP, HTML parsing and CSS selection: the outcome of the GET and the texts the selectors pick are inputs (`Fetched`, `Page`, `Row`). A selection that finds nothing has the empty text, and several matched cells give their texts joined.
- The error messages of the extractor and of the store are not modelled; errors are constructors (`ExtractError`, `UserError`).
- Go's regexp engine in general: only the three fixed patterns of the extractor are modelled, as scanners.
- GoStrings.TrimSpace: removes ASCII white space only, not the Unicode spaces (U+0085, U+00A0 and others) that Go's TrimSpace also removes.
- The nil result slice that Go returns on error and when there are no rows is the empty sequence here.
- Password hashing and checking (bcrypt with salt), JWT generation and validation, and the environment variables of the utility package rely on cryptography, clocks and randomness and are not part of this model.
- The MongoDB driver's I/O errors and contexts are not modelled. A driver call is assumed to succeed on the in-memory collection, and the id the driver generates on insert is a parameter of CreateUser.
- Users.AfterCreate: a caller-supplied non-empty `id` is replaced by the generated id. The driver would instead store it as a string `_id`, which the id-based operations cannot address; a collection keyed by ObjectIds has no place for such a document.
- Users.UserService.CreateUser: the same as Users.AfterCreate, whose outcome it produces.
- Users.AfterDelete, Users.AfterUpdate: the driver's result records (`DeleteResult`, `UpdateResult`) are reduced to the count removed and to `()`.
- Users.UserService.GetUserByCpf: when several users share a CPF the store returns one of them, and which one is not specified.
- The HTTP handlers, middleware, application wiring and e-mail sending call into this core and are not part of this model.
