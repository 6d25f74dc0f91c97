# Tinkey helpers: key templates from type URLs, class lookup, keyset formats

This project models `TinkeyUtil`, the helper class of Tink's command-line
tool Tinkey, in Dafny, and proves what its helpers promise. The helpers do
four things:

- **Key templates from text.** `createKeyTemplateFromText` takes a type URL
  such as `type.googleapis.com/google.crypto.tink.AesGcmKey` and a key format
  in protobuf text such as `key_size: 32`. It takes the proto class name from
  the URL (what follows the last `.`) and derives the key-format class name:
  it appends `Format`, then removes `Private`. It finds that class on the
  class path and parses the text with it. It builds a `KeyTemplate` and
  checks that the registry can generate a key from it. Any failure becomes
  one `IllegalArgumentException("invalid type URL or key format")`, with the
  original exception as its cause.
- **Class lookup.** `loadClass` walks the class path in order. It returns
  the first class whose lower-cased name ends with the lower-cased name it
  was asked for. When none matches it throws `IOException("class not found:
  …")`.
- **Format validation.** `validateInputOutputFormat` accepts an absent
  format, `TEXT` and `BINARY`. Anything else is an
  `IllegalArgumentException("invalid format: …")`.
- **Format selection.** `writeProto` and `getKeysetHandle` use the text
  encoding when the format is absent or `TEXT`, and the binary encoding
  otherwise.

Layout:

- `wrappers.dfy` (module `Wrappers`): `Option` models a Java reference that
  may be `null`. `Result` is a value or a thrown exception. `Outcome` models
  a `void` method that may throw.
- `java_strings.dfy` (module `JavaStrings`): the `java.lang.String`
  operations the helpers rely on. These are `lastIndexOf`, `indexOf`,
  `endsWith`, `toLowerCase` and `replace`.
- `tinkey_util.dfy` (module `TinkeyUtil`): the helpers, the `loadClass` scan
  as a method with a loop, and the lemmas about them.

Some code the helpers call is not part of this model: the class-path
scanner, reflection, the protobuf text and binary codecs,
`SubtleUtil.validateTypeUrl`, `Registry.newKey` and the two
`CleartextKeysetHandle.parseFrom` overloads. They are passed in as
function-valued fields: `Runtime` for the template pipeline, and
`ProtoCodec` plus two handle constructors for the keyset helpers. The class
path is a sequence of fully qualified class names in iteration order. The
class `loadClass` picks is modelled as its index in that sequence.

`getKeysetHandle`'s documentation says it reads "either a cleartext Keyset or
an EncryptedKeyset", and it takes a credential file. The code ignores the
credential file and only ever reads a cleartext keyset. The model follows
the code: `GetKeysetHandle` has no credential-file parameter and no
encrypted path.

## Model

| member | source | states |
|---|---|---|
| `JavaStrings.LastIndexOf` | tools/tinkey/src/main/java/com/google/crypto/tink/tinkey/TinkeyUtil.java:127 | `lastIndexOf` returns -1 exactly when the char is absent. Otherwise it returns a position holding that char with no such char after it. |
| `TinkeyUtil.ProtoClassName` | tools/tinkey/src/main/java/com/google/crypto/tink/tinkey/TinkeyUtil.java:127-128 | The class name is a suffix of the type URL and contains no `.`. When it is shorter than the URL, the char just before it is a `.`. |
| `TinkeyUtil.ProtoClassNameUnique` | tools/tinkey/src/main/java/com/google/crypto/tink/tinkey/TinkeyUtil.java:120-128 | Those three conditions determine the class name: any string that meets them is the class name. |
| `TinkeyUtil.ProtoClassNameWithoutDot` | tools/tinkey/src/main/java/com/google/crypto/tink/tinkey/TinkeyUtil.java:127-128 | A type URL without `.` is returned whole, because -1 + 1 = 0 is the substring start. |
| `TinkeyUtil.ProtoClassNameOfAesGcmKey` | tools/tinkey/src/main/java/com/google/crypto/tink/tinkey/TinkeyUtil.java:121-122 | The documented example: `type.googleapis.com/google.crypto.tink.AesGcmKey` gives `AesGcmKey`. |
| `TinkeyUtil.GetProtoClassName` | tools/tinkey/src/main/java/com/google/crypto/tink/tinkey/TinkeyUtil.java:125-129 | The name is returned exactly when type-URL validation passes. Otherwise the validator's GeneralSecurityException is thrown. |
| `JavaStrings.IndexOf` | tools/tinkey/src/main/java/com/google/crypto/tink/tinkey/TinkeyUtil.java:72 | `indexOf`, which the JDK's `replace` loop uses, returns -1 or a position at or after the start where the target occurs. |
| `JavaStrings.IndexOfIsFirst` | tools/tinkey/src/main/java/com/google/crypto/tink/tinkey/TinkeyUtil.java:72 | No occurrence starts between the start position and what `indexOf` returns, and none from the start on when it returns -1. |
| `JavaStrings.Replace` | tools/tinkey/src/main/java/com/google/crypto/tink/tinkey/TinkeyUtil.java:72 | With a non-empty target and a replacement no longer than it, `replace` never lengthens the string. With a replacement at least as long as the target, it never shortens it. For a non-empty target, what it computes is pinned down by `ReplaceMatchesIndexOfLoop`, `ReplaceWithoutOccurrence` and `ReplaceSingleOccurrence`. For an empty target, `InsertEverywhere` states the result. |
| `JavaStrings.InsertEverywhere` | tools/tinkey/src/main/java/com/google/crypto/tink/tinkey/TinkeyUtil.java:72 | `replace` with an empty target gives a string as long as the input plus one copy of the replacement per char and one more. It starts and ends with the replacement. |
| `JavaStrings.ReplaceWithoutOccurrence` | tools/tinkey/src/main/java/com/google/crypto/tink/tinkey/TinkeyUtil.java:72 | `replace` leaves a string without any occurrence of the target unchanged. |
| `JavaStrings.ReplaceSingleOccurrence` | tools/tinkey/src/main/java/com/google/crypto/tink/tinkey/TinkeyUtil.java:72 | When the target occurs once, after text in which no occurrence starts, `replace` gives that text, the replacement and the rest unchanged. |
| `JavaStrings.ReplaceMatchesIndexOfLoop` | tools/tinkey/src/main/java/com/google/crypto/tink/tinkey/TinkeyUtil.java:72 | The single left-to-right, non-overlapping scan that models `replace` is equal on every input to an independent definition. That definition finds the next occurrence with `indexOf`, copies the text before it, emits the replacement and continues after the occurrence. |
| `TinkeyUtil.KeyFormatName` | tools/tinkey/src/main/java/com/google/crypto/tink/tinkey/TinkeyUtil.java:71-72 | The key-format name always ends with `Format`. When the class name contains no `Private`, it is exactly the class name followed by `Format`. |
| `TinkeyUtil.RemovalKeepsFormatSuffix` | tools/tinkey/src/main/java/com/google/crypto/tink/tinkey/TinkeyUtil.java:45-56 | Removing `Private` never touches the appended `Format`, because no occurrence of `Private` can overlap it. |
| `TinkeyUtil.KeyFormatNameWithoutPrivate` | tools/tinkey/src/main/java/com/google/crypto/tink/tinkey/TinkeyUtil.java:45-49 | The XyzKey to XyzKeyFormat convention: a name without `Private` only gets `Format` appended. |
| `TinkeyUtil.KeyFormatNameOfAesGcmKey` | tools/tinkey/src/main/java/com/google/crypto/tink/tinkey/TinkeyUtil.java:46-48 | The documented example: `AesGcmKey` gives `AesGcmKeyFormat`. |
| `TinkeyUtil.KeyFormatNameDropsPrivate` | tools/tinkey/src/main/java/com/google/crypto/tink/tinkey/TinkeyUtil.java:51-56 | The XyzPrivateKey to XyzKeyFormat convention: for any `Xyz` and any rest that contain no `Private`, `Xyz` + `Private` + rest gives `Xyz` + rest + `Format`. |
| `TinkeyUtil.KeyFormatNameOfEcdsaPrivateKey` | tools/tinkey/src/main/java/com/google/crypto/tink/tinkey/TinkeyUtil.java:51-55 | The documented example: `EcdsaPrivateKey` gives `EcdsaKeyFormat`. |
| `TinkeyUtil.KeyFormatNameOfRsaSsaPkcs1PrivateKey` | tools/tinkey/src/main/java/com/google/crypto/tink/tinkey/TinkeyUtil.java:51-56 | The convention also holds when the name has another capital `P`: `RsaSsaPkcs1PrivateKey` gives `RsaSsaPkcs1KeyFormat`. |
| `TinkeyUtil.KeyFormatNameMayKeepPrivate` | tools/tinkey/src/main/java/com/google/crypto/tink/tinkey/TinkeyUtil.java:72 | Removal is a single pass, so the result can still contain `Private`. For example, `PrivPrivateate…` gives `Private…Format`. |
| `JavaStrings.ToLowerCase` | tools/tinkey/src/main/java/com/google/crypto/tink/tinkey/TinkeyUtil.java:113 | Lower-casing keeps the length and maps each char on its own. |
| `JavaStrings.ToLowerCaseIdempotent` | tools/tinkey/src/main/java/com/google/crypto/tink/tinkey/TinkeyUtil.java:113 | Lower-casing an already lower-cased name changes nothing. |
| `JavaStrings.EndsWithCharwise` | tools/tinkey/src/main/java/com/google/crypto/tink/tinkey/TinkeyUtil.java:113 | `endsWith` holds exactly when the suffix is no longer than the string and its chars are the string's last chars, in order. |
| `TinkeyUtil.FindClassFrom` | tools/tinkey/src/main/java/com/google/crypto/tink/tinkey/TinkeyUtil.java:112-117 | The search from a position returns the first matching entry at or after it. Otherwise it returns "class not found" when no entry from there on matches. |
| `TinkeyUtil.FindClass` | tools/tinkey/src/main/java/com/google/crypto/tink/tinkey/TinkeyUtil.java:109-118 | The class chosen is the first entry whose lower-cased name ends with the lower-cased target. The result is `IOException("class not found: " + className)` exactly when no entry matches. |
| `TinkeyUtil.FirstMatchUnique` | tools/tinkey/src/main/java/com/google/crypto/tink/tinkey/TinkeyUtil.java:112-116 | There is at most one first match, so the early return is determined. |
| `TinkeyUtil.LoadClass` | tools/tinkey/src/main/java/com/google/crypto/tink/tinkey/TinkeyUtil.java:109-118 | The loop with early return gives the first match or "class not found", and it equals `FindClass`. |
| `TinkeyUtil.FindClassIgnoresCase` | tools/tinkey/src/main/java/com/google/crypto/tink/tinkey/TinkeyUtil.java:113 | Targets that differ only in case succeed or fail together and pick the same entry. |
| `TinkeyUtil.FindClassMatchesLongerName` | tools/tinkey/src/main/java/com/google/crypto/tink/tinkey/TinkeyUtil.java:113 | The match is a suffix match, not a match on the simple name. An earlier entry such as `p.AesCtrHmacKeyFormat` is picked when looking for `HmacKeyFormat`. |
| `TinkeyUtil.CreateKeyTemplateFromBinary` | tools/tinkey/src/main/java/com/google/crypto/tink/tinkey/TinkeyUtil.java:86-95 | The template carries exactly the given type URL and value. It is returned exactly when the registry accepts it. Otherwise the registry's GeneralSecurityException is thrown. |
| `TinkeyUtil.KeyTemplateFromTextSteps` | tools/tinkey/src/main/java/com/google/crypto/tink/tinkey/TinkeyUtil.java:70-76 | The try block returns a template only when every step passed: validation, class lookup, parsing and registry acceptance. The template holds the given type URL and the bytes parsed by the class `loadClass` picks. |
| `TinkeyUtil.CreateKeyTemplateFromText` | tools/tinkey/src/main/java/com/google/crypto/tink/tinkey/TinkeyUtil.java:67-80 | Every failure is the single `IllegalArgumentException("invalid type URL or key format")`, with a cause. A success has the input type URL and a value parsed by the chosen format class, and the registry accepted it. |
| `TinkeyUtil.CreateKeyTemplateFromTextSucceeds` | tools/tinkey/src/main/java/com/google/crypto/tink/tinkey/TinkeyUtil.java:69-76 | Conversely, when every step succeeds, the result is the template of the type URL and the parsed bytes. |
| `TinkeyUtil.InvalidTypeUrlIsCause` | tools/tinkey/src/main/java/com/google/crypto/tink/tinkey/TinkeyUtil.java:71-79 | A rejected type URL fails before any lookup. The validator's exception is the chained cause. |
| `TinkeyUtil.MissingFormatClassIsCause` | tools/tinkey/src/main/java/com/google/crypto/tink/tinkey/TinkeyUtil.java:73-79 | When no class matches the key-format name, `loadClass`'s "class not found" is the chained cause. |
| `TinkeyUtil.ValidateInputOutputFormat` | tools/tinkey/src/main/java/com/google/crypto/tink/tinkey/TinkeyUtil.java:177-187 | Exactly null, `TEXT` and `BINARY` are accepted. Every other string is rejected with `IllegalArgumentException("invalid format: " + format)`. |
| `TinkeyUtil.SelectedEncoding` | tools/tinkey/src/main/java/com/google/crypto/tink/tinkey/TinkeyUtil.java:148 | The format test that `writeProto` makes here and `getKeysetHandle` makes at line 169 chooses text exactly for accepted formats other than `BINARY`, as `validateInputOutputFormat` defines acceptance. `BINARY` and every rejected string fall to binary. |
| `TinkeyUtil.WriteProto` | tools/tinkey/src/main/java/com/google/crypto/tink/tinkey/TinkeyUtil.java:145-158 | The bytes written are the text printing of the proto when the format is null or `TEXT`, and its binary serialization for every other format string. |
| `TinkeyUtil.GetKeysetHandle` | tools/tinkey/src/main/java/com/google/crypto/tink/tinkey/TinkeyUtil.java:165-175 | For any format other than null or `TEXT`, the handle comes from parsing the bytes read as a binary keyset. For null or `TEXT`, a text-merge failure is thrown as it is; otherwise the handle comes from the merged keyset. |
| `TinkeyUtil.WrittenKeysetReadsBack` | tools/tinkey/src/main/java/com/google/crypto/tink/tinkey/TinkeyUtil.java:145-175 | Bytes that `writeProto` writes under a format read back through `getKeysetHandle` under the same format. This holds for valid and invalid formats, provided each encoding round-trips the keyset. |

## Left out

- Reflection is not modelled: `getBuilder`, `ClassPath.from(…).getAllClasses()` and `classInfo.load()`. The class path is an input sequence of names. A failure to enumerate it, to load a class or to find `newBuilder` is folded into the `parseKeyFormat` collaborator or not modelled.
- Protobuf text and binary codecs are opaque function parameters: `TextFormat.merge`, `printToUnicodeString`, `toByteArray`, `toByteString` and UTF-8 conversion. Their bytes are not modelled.
- `SubtleUtil.validateTypeUrl`, `Registry.INSTANCE.newKey` and `CleartextKeysetHandle.parseFrom` are not part of this model. They are uninterpreted function parameters.
- `readKeyTemplateFromTextFile` is not modelled. It is only a file read followed by a protobuf text merge, so it has no logic of its own to state.
- Stream I/O is not modelled: the `write`/`close` in `writeProto`, the `read`/`close` in `getKeysetHandle`, and their `IOException`s. `WriteProto` gives the bytes written. `GetKeysetHandle` starts from the bytes read.
- `JavaStrings.ToLowerCase`: only ASCII `A`–`Z` are lowered. Locale-dependent and non-ASCII case mappings of `String.toLowerCase()` are not modelled, including mappings that change the string's length.
- Strings are sequences of Unicode scalar values, not Java's UTF-16 code units. Positions count code points, and a string holding an unpaired surrogate cannot be represented. Neither changes a result here: `.`, `Private` and the ASCII letters lowered by `toLowerCase` never split a surrogate pair.
- A `null` `typeUrl` or `keyFormat` in `createKeyTemplateFromText` is not modelled, because the model's strings cannot be null. In Java a `null` raises a `NullPointerException` inside the try block, which line 78 turns into the same `IllegalArgumentException("invalid type URL or key format")`.
- `JavaStrings.Replace`: for an empty target, only the length of the result and the replacement at its start and end are stated. That the replacement stands between every two chars is modelled in `InsertEverywhere` but not proved, because `TinkeyUtil` only ever replaces the non-empty `Private`.
- `KeyTemplate` holds only the two fields the helpers set: the type URL and the value. The proto's other fields keep their defaults and are not modelled.
- `java.lang.Error`s thrown by class loading are not modelled. They escape `catch (Exception e)`.
- The rest of the repository is not part of this model: the key registry, the streaming AEAD, hybrid encryption and the test harnesses.
