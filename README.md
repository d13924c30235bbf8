# go-s3: a Dafny model of the upload, signing and existence-check logic

This project models the deterministic logic of the Go client library
`go-s3`. That logic decides what is sent to S3 and what comes back to the
caller. It covers three parts.

- **Uploading** (`upload.go`):
  - `UploadFile` builds the SDK's upload input with its defaults and
    optional fields.
  - `UploadFiles` collects the locations of a batch of uploads and drops
    the failures.
  - `GetLogFiles` filters the walk of a log folder through the ignore list.
    A path is listed once for every ignore entry it does not contain.
  - `extractFileKey` derives the key and the name of a log file.
  - `UploadLog` fails when nothing is listed. Otherwise it returns the
    listing, and it removes a local file only when its upload produced a URL
    and the keep policy answers no.
- **Browser POST policy** (`signature.go`):
  - `GenerateSignature` applies the ACL and size-limit defaults.
  - It builds the credential scope and fills the nine fields of the policy
    template.
  - It encodes the policy in base64, as in section 4 of RFC 4648.
  - It derives the AWS Signature Version 4 signing key: "AWS4" + secret →
    date stamp → region → "s3" → "aws4_request".
  - It signs the encoded policy and writes the signature in lower-case
    hexadecimal.
- **Existence check** (`utils.go`):
  - `CheckFile` classifies the outcome of a HEAD request.
  - `contains` searches a list.

The Go library functions these rely on are written out in Dafny:
- `strings.Contains` and `fmt.Sprintf` for `%s`, `%d` and `%%`;
- decimal formatting of integers and `[]byte(s)` as UTF-8;
- `path.Ext`, `filepath.Base`, `filepath.Dir` and `filepath.Clean` on Unix
  paths;
- `hex.EncodeToString` and `base64.StdEncoding.EncodeToString`, each with a
  decoder that undoes it;
- the three `time.Format` layouts the signer uses, each with a parser that
  reads it back.

Calls the model cannot see become parameters:
- the SDK session, upload and HEAD calls;
- `os.Open`;
- the folder walk;
- `time.Now` and the UTC calendar;
- HMAC-SHA256.

Modules, one per file:
- `wrappers.dfy`: `Option`, `Result`;
- `client.dfy`: configuration, errors, session outcome, `(string, error)`
  replies;
- `gostrings.dfy`: strings, decimal, UTF-8 and `Sprintf`;
- `gopath.dfy`: paths;
- `encoding.dfy`: hex and base64;
- `timefmt.dfy`: time layouts;
- `signature.dfy`: `signature.go`;
- `utils.dfy`: `utils.go`;
- `upload.dfy`: `upload.go`.

The source's loops and in-place updates are methods with loop invariants, each
proved against a specification function:
- `BuildUploadInput` holds the conditional updates of the upload input;
- `RunJobs` holds the jobs of `UploadFiles` and the shared counter that
  closes their channel;
- `Collect` holds the loop that collects a batch's URLs from the channel;
- `UploadLog` holds its jobs and the removals;
- `GetLogFiles` holds the nested filter loop;
- `Contains` holds the early-return scan.

Everything else is a function with lemmas.

Some details of the code that the model keeps as written:
- No file is skipped for being empty; the size is only printed
  (upload.go:135).
- The content type is never sniffed; it is set only when given
  (upload.go:58-60).
- A path is listed once per ignore entry that it does not contain
  (upload.go:138-143).
- `UploadLog` returns the listed files, not the URLs (upload.go:231).

## Model

| member | source | states |
|---|---|---|
| GoStrings.ContainsIffOccurs | upload.go:140 | `strings.Contains(s, sub)` holds exactly when `sub` occurs in `s` at some position |
| GoStrings.FormatIntRoundTrip | signature.go:75 | the decimal rendering of an integer that `%d` produces reads back to that integer, including negative ones |
| GoStrings.SprintfAppend | signature.go:69-79 | formatting two formats one after the other, with their arguments one after the other, gives the first rendering followed by the second; every verb takes its own argument |
| GoPath.ExtOfLastElement | upload.go:235 | `path.Ext` is a suffix of the final element; it is empty exactly when that element has no '.'; otherwise it starts at the element's last '.' |
| GoPath.DropExt | upload.go:236 | `file[:len(file)-len(ext)]` is the directory part followed by the stem of the final element |
| GoPath.BaseOfFilePath | upload.go:242 | `filepath.Base` of a path that is not empty and does not end in '/' is its final element |
| GoPath.CleanPlainDirectory | upload.go:239 | `filepath.Clean` of plain relative elements followed by '/' drops only the trailing separator |
| GoPath.CleanDotDirectory | upload.go:239 | `filepath.Clean` also drops a leading "./" from such a directory |
| GoPath.DirOfPlainPath | upload.go:239 | `filepath.Dir` of `dir/name`, for a relative `dir` of plain elements, is `dir` |
| GoPath.DirWithoutSeparator | upload.go:239 | `filepath.Dir` of a path without '/' is "." |
| Encoding.HexRoundTrip | signature.go:89 | decoding `hex.EncodeToString(b)` gives `b` back |
| Encoding.HexEncodeShape | signature.go:89 | the hexadecimal text has two lower-case digits per byte |
| Encoding.Base64RoundTrip | signature.go:82 | decoding the padded standard base64 text of `b` gives `b` back |
| Encoding.Base64Length | signature.go:82 | the base64 text has four characters for every three bytes or part of three |
| TimeFormat.FormatBasic | signature.go:58-59 | the "20060102T150405Z" rendering is 16 ASCII characters, and its first eight are the "20060102" rendering of the same instant |
| TimeFormat.ParseFormatShortDate | signature.go:58 | the "20060102" rendering reads back to the year, the month and the day |
| TimeFormat.ParseFormatBasic | signature.go:59 | the "20060102T150405Z" rendering reads back to the year, month, day, hour, minute and second |
| TimeFormat.ParseFormatExpiration | signature.go:70 | the "2006-01-02T15:04:05.000Z" rendering reads back to the same fields and the milliseconds |
| Signature.ExpiryOffsetExact | signature.go:57 | `time.Minute * time.Duration(m)` is exactly `m` minutes in nanoseconds when `m` is within 153722867 minutes of zero |
| Signature.ExpiryOffsetWraps | signature.go:57 | one minute more and the int64 product wraps to a negative duration |
| Signature.EffectiveAcl | signature.go:61-64 | the ACL is the caller's ACL, or "public-read" when that is empty |
| Signature.EffectiveMaxFileSize | signature.go:65-68 | the size limit is the caller's, or 40971520 when it is 0; any other value is kept, including a negative one |
| Signature.Credential | signature.go:60 | the credential is access key, "/", short date, "/", region and "/s3/aws4_request" |
| Signature.BucketUrl | signature.go:92 | the URL is "https://" + bucket + ".s3.amazonaws.com" |
| Signature.FillPolicy | signature.go:12-25 | `Sprintf` of the policy template accepts the nine arguments and puts each into its place in the document, in template order |
| Signature.GenerateSignature | signature.go:56-106 | key and content type are echoed; the algorithm is "AWS4-HMAC-SHA256"; URL and ACL are as above; the date is the 16-character rendering of `now + ExpiryMinutes`; the credential's date is the date's first eight characters |
| Signature.GeneratedPolicy | signature.go:69-82 | the policy decodes to exactly the bytes of the document filled with expiration, bucket, key, ACL, content type, size limit, credential, algorithm and date; its length is four characters per three document bytes |
| Signature.GeneratedSignature | signature.go:85-89 | the signature is the lower-case hex of the HMAC of the policy, keyed by the SigV4 chain over secret, `date[:8]`, region, "s3" and "aws4_request"; it is 64 characters long, twice the MAC length |
| Signature.DateStampBytes | signature.go:85 | slicing the bytes of the date at 8 is the same as slicing its characters |
| Signature.DateAndExpirationAgree | signature.go:57-70 | the returned date and the policy's expiration read back to the same calendar fields of the same instant |
| Utils.Contains | utils.go:44-52 | the result is true exactly when some element equals the value; on an empty list it is false |
| Utils.ObjectUrl | utils.go:39 | the object URL format renders as "https://" + bucket + ".s3.amazonaws.com/" + key |
| Utils.CheckFile | utils.go:16-42 | a failed session is returned as it is; an AWS "NotFound" becomes `ErrNotFound`; any other error is returned unchanged; success gives the object URL with no error; the URL is "" whenever there is an error |
| Utils.SessionFailureSkipsHead | utils.go:17-22 | once the session fails, the reply does not depend on what HEAD would answer |
| Utils.NotFoundExactly | utils.go:27-36 | `ErrNotFound` comes back exactly for an AWS error with code "NotFound" |
| Upload.UploadInputFor | upload.go:41-64 | the input copies bucket, key, body, cache control and expiry; ACL is "public-read" unless one is given; disposition and content type are set only when not empty; metadata only when not nil |
| Upload.BuildUploadInput | upload.go:41-64 | the initial input and the conditional updates produce an input with exactly those properties |
| Upload.DescribesUnique | upload.go:41-64 | those properties determine the input completely |
| Upload.UploadReply | upload.go:32-74 | a failed session returns ("", err) without an upload; a failed upload returns ("", err); otherwise the location with no error |
| Upload.UploadFile | upload.go:32-74 | the method's reply is that reply |
| Upload.UploadErrors | upload.go:33-72 | an error is returned exactly when the session or the upload failed, and then the URL is "" |
| Upload.FailedSessionSendsNothing | upload.go:33-37 | after a failed session, the reply does not depend on the store |
| Upload.KeptMembers | upload.go:101-110 | a URL is collected exactly when it is not empty and some job sent it |
| Upload.BatchMembers | upload.go:93-110 | the batch collects exactly the locations of the jobs whose upload succeeded with a location that is not empty |
| Upload.RunJobs | upload.go:78-96 | the jobs send exactly one URL each, the reply of their upload, in job order; the counter `max` starts at the number of jobs, each job's deferred block decrements it, and the channel ends up closed exactly when there was at least one job |
| Upload.Collect | upload.go:98-111 | the collector keeps exactly the received URLs that are not empty, in the order received |
| Upload.UploadFilesAsWritten | upload.go:76-116 | the call completes exactly when the batch is not empty, because `wg.Wait()` needs the collector to see the channel closed; when it completes, the result is, as a multiset, the non-empty URLs sent |
| Upload.UploadFiles | upload.go:76-116 | with the channel closed once every job has finished: as a multiset, the result is exactly the non-empty URLs sent; it has at most one per parameter set and no ""; an empty batch gives an empty result |
| Upload.GetLogFiles | upload.go:125-153 | the nested loops produce the listing of the walk |
| Upload.LogFilesAppend | upload.go:129-150 | the listing of two walks in sequence is the first listing followed by the second, so listed paths keep the walk's order |
| Upload.LogFilesOfEntry | upload.go:137-146 | a directory is never listed; with an empty ignore list a file is listed exactly once |
| Upload.MissesShape | upload.go:138-143 | with an ignore list, a file is listed only as copies of its own path, one for each ignore entry that is not a substring of it: none exactly when every entry is a substring, one per entry exactly when none is |
| Upload.MissesCount | upload.go:138-143 | the number of copies is the number of positions in the ignore list whose entry is not a substring of the path |
| Upload.LogFilesMembers | upload.go:137-146 | a path is listed exactly when the walk has a file entry for it and the ignore list is empty or has an entry the path does not contain |
| Upload.EmittedMembers | upload.go:137-146 | the same, for the copies of a single entry |
| Upload.SingleIgnoreEntry | upload.go:138-143 | with one ignore entry, a file is listed once when it does not contain the entry and not at all when it does |
| Upload.ListedPerEntry | upload.go:138-143 | a file that contains none of several ignore entries is listed once per entry |
| Upload.GzipName | upload.go:237 | `Sprintf("%s.gz", name)` is `name + ".gz"` |
| Upload.KeyText | upload.go:240 | `Sprintf("%s/%s", folder, name)` is `folder + "/" + name` |
| Upload.BaseOfGzipName | upload.go:236-238 | the base name of the path with its extension cut and ".gz" appended is the stem followed by ".gz" |
| Upload.ExtractFileKey | upload.go:234-244 | the key is `filepath.Dir(file) + "/" + stem + ".gz"` and the name is `filepath.Base(file)` |
| Upload.ExtractedName | upload.go:242 | for a file path, the name is its final element |
| Upload.ExtractedKeyExtension | upload.go:235-240 | a final element without '.' keeps all its text and gets ".gz" appended; otherwise only the text from its last '.' is replaced |
| Upload.ExtractedKeyWithoutDirectory | upload.go:239-240 | a file without a directory gets the key "./stem.gz" |
| Upload.ExtractedKeyInDirectory | upload.go:234-244 | for a relative directory of plain elements, the key is that directory, "/", the stem of the final element and ".gz"; the name is the final element |
| Upload.ExtractedKeyOfAppLog | upload.go:234-244 | "logs/backend/app.log" has the key "logs/backend/app.gz" and the name "app.log" |
| Upload.ExtractedKeyOfBackendTestFile | upload_test.go:34 | "./logs/backend/2006-01-02" has the key "logs/backend/2006-01-02.gz" and the name "2006-01-02" |
| Upload.ExtractedKeyOfConsumerTestFile | upload_test.go:35 | "./logs/consumer/2006-02-02" has the key "logs/consumer/2006-02-02.gz" and the name "2006-02-02" |
| Upload.ExtractedKeyOfDotPath | upload.go:234-244 | "./logs/backend/2006-01-02" has the key "logs/backend/2006-01-02.gz" and the name "2006-01-02": the "./" is cleaned away |
| Upload.UploadLog | upload.go:154-232 | an empty listing returns the error "no have any files to upload" and removes nothing; otherwise it returns exactly the listing, and as a multiset the removed files are those whose job removes them |
| Upload.LogJobRemovesExactly | upload.go:181-210 | a job removes its file exactly when the file opened, the session was established, the upload returned a non-empty location, and a keep policy exists and answers no for the file's key and name |
| Upload.RemovedMembers | upload.go:170-212 | a file is removed exactly when one of the jobs for it removes it |
| Upload.NoPolicyKeepsEverything | upload.go:205-210 | without a keep policy no file is removed |

## Left out

- Goroutines, the `sync.WaitGroup` and the channels of `UploadFiles` and
  `UploadLog` are not modelled. The jobs run one after another in list order.
- The unsynchronised `max--` counter is a data race, and its effects are not
  modelled. The counter is decremented race-free, once per job, in
  `RunJobs`.
- Upload.UploadFiles: only the multiset of its result is promised. The jobs
  run concurrently, and the channel delivers their URLs in any order.
- Upload.UploadLog: for the same reason, only the multiset of its removed
  files is promised.
- The SDK calls are outcomes given to the model:
  - `client.NewSession()` is a `SessionOutcome`, chosen per job by index;
  - `svc.Upload` is a total function from the input to a location or an
    error;
  - `HeadObject` is a `HeadOutcome`.
  - Retries, multipart uploads and the rest of the upload output beyond
    `Location` are not modelled.
- `io.Reader` bodies are not modelled; they are opaque tokens. The gzip
  `io.Pipe` of a log file is the token `GzipPipe(file)`, and compression is
  not modelled.
- `os.Open` is the per-job answer `canOpen(i)`. The open file is never
  closed in the model, and a file's contents are never read.
- `os.Remove` is not modelled as an operation; the files handed to it form
  the `removed` sequence. Its error is ignored, as in the source.
- `filepath.Walk` is not modelled; its visits form the input sequence of
  entries.
  - The entry's size is left out, because it is only printed.
  - A walk error ends the process through `log.Fatalf`, so `GetLogFiles`
    never returns an error, and the model has none.
- Printing is not modelled: the logger calls and the debug `fmt.Println`.
- The `uploadedURLs` of `UploadLog` are collected and then dropped, as in
  the source.
- The keep policy is a total function of key and name. Calls to it have no
  side effects.
- `time.Now()` is the parameter `now`, an instant in nanoseconds.
  `Time.Add` is exact on it.
- `Time.UTC` is a parameter: a calendar reading of an instant.
  - Years are limited to 0 to 9999, where the layouts print four digits.
  - Time zones and leap seconds are not modelled.
- `int` is 64-bit, as on the 64-bit platforms Go targets. Only
  `time.Duration` multiplication is modelled with wrap-around; no other
  integer operation in the core can overflow.
- HMAC-SHA256 (`makeHmac`, signature.go:108-112) is a parameter that maps a
  key and a message to a 32-byte tag. Its internals (RFC 2104 over FIPS
  180-4) are not modelled.
- Strings have a limited model:
  - they are sequences of Unicode code points, encoded as UTF-8 when
    converted to bytes;
  - Go strings holding invalid UTF-8 are not modelled;
  - paths use Unix separators only.
- The hex and base64 decoders are partners for the round-trip properties;
  they are not code of the library. The base64 decoder does not model Go's
  skipping of line breaks.
- `download.go` and `s3.go` are not part of this model. They hold the SDK
  wrappers for downloads and the client constructor.

## Findings

| source | as written | input that shows it | evidently intended | confidence | as-written member | corrected member |
|---|---|---|---|---|---|---|
| upload.go:78-113 | only a job's deferred block closes the channel, when it brings the counter `max` to zero; with no job, nothing closes it, the collecting goroutine never returns, and `wg.Wait()` blocks forever | `UploadFiles([]UploadFileParams{})` | an empty batch returns an empty result | not executed | Upload.UploadFilesAsWritten | Upload.UploadFiles |
