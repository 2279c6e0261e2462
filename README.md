# bckruppr: a Dafny model of the dump-and-upload core

bckruppr runs `mysqldump` once, keeps whatever the dump wrote to standard
output together with the instant the run finished, and POSTs that output as
one object to Google Cloud Storage. The object is named after the dump's epoch
seconds. This project models the pure steps between the two external calls and
proves what they promise:

- the argument vector built from the connection parameters (`Dumper::build_args`);
- the shaping of the child process's result into a dump, whatever its exit status (`Dumper::exec`);
- the conversion of the dump's bytes to text (`SqlDump::to_str`), with well-formedness
  stated after the UTF-8 syntax of section 4 of RFC 3629;
- the media-upload URL (`GcsClient::build_storage_uri`), the `Authorization: Bearer` header,
  and the URL, header and body that `GcsClient::send` hands to reqwest.

Modules, one file each:

- `Wrappers` (wrappers.dfy): `Option` and `Result`.
- `Utf8` (utf8.dfy): octets, the RFC 3629 grammar (`IsUtf8Char`, `WellFormed`), the encoder
  `Encode` and the decoder `Decode`. `Decode` stands in for Rust's `str::from_utf8`: it either
  gives the text the bytes encode or an error with the longest valid prefix (`valid_up_to`).
  Text is a Dafny `string`, whose characters are Unicode scalar values. "The text is the bytes
  unchanged" is stated as `Encode(text) == bytes`.
- `Decimal` (decimal.dfy): how chrono's `"%s"` writes epoch seconds, the `Display` of an `i64`,
  with a parser as its inverse.
- `DumpProducer` (dump_producer.dfy): `SqlConfig`, `Timestamp`, `SqlDump` and `Dumper`. The child
  process is a parameter `mysqldump: Command -> CommandOutput`, a function from the launched
  command to its exit status, standard output and standard error. The instant the run finished
  is a parameter `now`.
- `UploadClient` (upload_client.dfy): `GcsClient`, the URL, the header and the request value.

The code's URL format string `"https://www.googleapis.com/{}{}"` is applied to a path that
already starts with `/`, so the URL begins `https://www.googleapis.com//upload/...`, with two
slashes after the host. The model keeps that double slash. `StorageUriDoubleSlash` states this
and `ExampleRequest` shows it for a worked example. The bucket name is inserted
verbatim, with no percent-encoding, as the code does.

## Model

| member | source | states |
|---|---|---|
| `Utf8.EncodeChar` | src/main.rs:25-26 | each character's encoding is one UTF8-char of RFC 3629 that decodes back to that character's scalar value |
| `Utf8.EncodeWellFormed` | src/main.rs:25-26 | the encoding of every text is well-formed UTF-8 under the RFC 3629 grammar |
| `Utf8.Decode` | src/main.rs:25-28 | on success the text's UTF-8 encoding is the input itself, with nothing repaired or replaced; on failure `validUpTo` is a position inside the input |
| `Utf8.DecodeErrorValidUpTo` | src/main.rs:25-27 | on failure the bytes before `validUpTo` are well-formed and no longer prefix of the input is: Rust's maximal `valid_up_to` |
| `Utf8.DecodeSucceedsIffWellFormed` | src/main.rs:25-27 | decoding succeeds exactly when the bytes are well-formed UTF-8 under the RFC 3629 grammar |
| `Utf8.DecodeEncode` | src/main.rs:25-26 | decoding the encoding of any text gives that text back |
| `Decimal.NatDigits` | src/main.rs:97 | a natural number is written as a non-empty string of decimal digits with no leading zero, except "0" itself |
| `Decimal.Render` | src/main.rs:97 | a canonical decimal string (an optional '-', then digits with no leading zero, never "-0") that starts with '-' exactly when the number is negative |
| `Decimal.NatDigitsValue` | src/main.rs:97 | the digits written for n denote n |
| `Decimal.ParseRender` | src/main.rs:97 | parsing the rendered seconds gives back the same integer |
| `Decimal.RenderParse` | src/main.rs:97 | every canonical decimal string parses, and rendering its value writes that same string back |
| `Decimal.RenderInjective` | src/main.rs:97 | two epoch-second values render alike exactly when they are equal |
| `DumpProducer.SqlDump.ToStr` | src/main.rs:24-28 | succeeds exactly on well-formed UTF-8 and then returns text whose encoding is `sql` unchanged; otherwise an error whose `validUpTo` lies inside the bytes, the case in which the program panics |
| `DumpProducer.ToStrErrorValidUpTo` | src/main.rs:25-27 | when the dump is not text, the bytes before the error's `validUpTo` are well-formed and no longer prefix is |
| `DumpProducer.AttachedValue` | src/main.rs:63-66 | an argument carries a value for a flag exactly when it starts with '-' and that flag letter, and is then that prefix glued to the value |
| `DumpProducer.ParseArgs` | src/main.rs:62-68 | an argument vector read back as flag/value pairs has five entries, the fifth being the database name verbatim (a reader of the vector, not mysqldump's own parser) |
| `DumpProducer.Dumper.BuildArgs` | src/main.rs:62-69 | exactly five arguments; reading them back as -h, -P, -u and -p with attached values, then one positional name, yields exactly the configured host, port, user, password and database |
| `DumpProducer.BuildArgsInjective` | src/main.rs:62-68 | two configurations give the same argument vector exactly when they are equal |
| `DumpProducer.FailureDiagnostic` | src/main.rs:49-54 | after a failed run the diagnostic holds the error stream as text exactly when that stream is UTF-8, and its encoding is the stream unchanged |
| `DumpProducer.Dumper.Exec` | src/main.rs:43-60 | mysqldump is launched at /usr/bin/mysqldump with the built arguments; the dump is its standard output unchanged, stamped with `now`, whatever the exit status; a diagnostic is produced exactly when the status is not success |
| `DumpProducer.DumpIgnoresStatus` | src/main.rs:49-59 | runs that agree on standard output give the same dump, whatever their exit status and error stream |
| `UploadClient.ObjectName` | src/main.rs:97 | the object name ends in ".sql" and the part before it is a canonical decimal string that parses to the timestamp's epoch seconds |
| `UploadClient.GcsClient.BuildStorageUri` | src/main.rs:95-99 | the URL is the host, a path starting with a second '/', the bucket, "/o", then the media-upload query naming the object |
| `UploadClient.StorageUriDeterminedBy` | src/main.rs:96-98 | for any bucket names, two clients get the same URL exactly when their buckets and epoch seconds agree; the token, the payload and the sub-second part play no part |
| `UploadClient.StorageUriDoubleSlash` | src/main.rs:96-98 | the URL begins "https://www.googleapis.com//" |
| `UploadClient.GcsClient.Authorization` | src/main.rs:90 | the header is named Authorization and its value is "Bearer ", one space included, followed by the token verbatim |
| `UploadClient.GcsClient.BuildRequest` | src/main.rs:87-93 | a POST to the storage URL with the bearer header, built exactly when the dump is well-formed UTF-8, whose body's encoding is the dump's bytes unchanged; otherwise the error `ToStr` reports, before the request is built |
| `UploadClient.UploadedBodyIsStdout` | src/main.rs:111-117 | end to end, the body of the built request is mysqldump's standard output byte for byte, whatever the exit status, and the request is not built exactly when that output is not UTF-8 |
| `UploadClient.ExampleRequest` | src/main.rs:88-98 | for bucket "b1", token "tok" and epoch second 1700000000, the request goes to the URL ending in `b1/o?uploadType=media&name=1700000000.sql` with header `Bearer tok` |

## Left out

- Launching `/usr/bin/mysqldump` (`Command::output`) and the panic when it cannot be launched: process I/O. The child's result is the parameter `mysqldump`.
- `Utc::now()`: the clock is taken as the parameter `now`.
- chrono's formatting internals: `"%s"` is modelled as the decimal rendering of the epoch seconds, which is what it writes.
- Rust's `str::from_utf8` loop: replaced by the RFC 3629 grammar and a decoder proved against it. `Utf8Error::error_len` is not modelled; only `valid_up_to` is.
- The reqwest client, sending the request, and the handling of its response or transport error in `main`: network calls into a library outside this model. `BuildRequest` returns the URL string, header and body handed to reqwest. reqwest's URL parsing, which can rewrite a bucket containing `..`, `?`, `#` or spaces, and its header-value check, which makes `send` fail on a token with control characters, are not modelled.
- Reading the seven environment variables in `main` and its panic when one is missing: process environment.
- The `println!` diagnostics and their wording: output only. Which diagnostic a failed run prints is modelled (`Diagnostic`); the printed text is not.
- mysqldump's own option parser: `ParseArgs` reads the vector back as flag/value pairs. mysqldump itself reads some edge inputs differently. With an empty host, port or user, the bare `-h`, `-P` or `-u` takes the next entry as its value. A bare `-p` from an empty password makes it prompt for a password. A database name that starts with `-` is read as an option.
- Leaving the config, bucket, token and dump unchanged when the URL or the arguments are built: this holds by construction, because every operation here is a function over immutable values. No separate member states it.
- `Dumper::new` and `GcsClient::new` are the datatype constructors `Dumper(..)` and `GcsClient(..)`.
