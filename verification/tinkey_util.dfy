/** Tinkey's helpers: turning a type URL and a text key format into a key
    template, finding the key-format proto class by name, and choosing between
    the TEXT and BINARY encodings of keysets and protos. */
module TinkeyUtil {
  import opened Wrappers
  import opened JavaStrings

  type bytes = seq<bv8>

  /** Appended to a key's proto class name to name the proto that holds its
      key format. */
  const KEY_FORMAT_SUFFIX: string := "Format"
  /** Taken out of that name in one pass, so that a private key shares the
      key format proto of its public key. */
  const PRIVATE: string := "Private"

  const INVALID_TEMPLATE_MESSAGE: string := "invalid type URL or key format"
  const CLASS_NOT_FOUND_MESSAGE: string := "class not found: "
  const INVALID_FORMAT_MESSAGE: string := "invalid format: "
  const TEXT: string := "TEXT"
  const BINARY: string := "BINARY"

  /** The exceptions these helpers throw, catch or chain. */
  datatype Exception =
    | IOException(message: string)
    | GeneralSecurityException(message: string)
    | ParseException(message: string)
    | ReflectiveOperationException(message: string)
    | IllegalArgumentException(message: string, cause: Option<Exception>)

  /** The two fields of the KeyTemplate proto that the helpers set. */
  datatype KeyTemplate = KeyTemplate(typeUrl: string, value: bytes)

  /** What the helpers consult beyond their arguments. */
  datatype Runtime = Runtime(
    /** fully qualified names of the classes on the class path, in iteration order */
    classPath: seq<string>,
    /** SubtleUtil.validateTypeUrl; Fail(m) is a GeneralSecurityException with message m */
    validateTypeUrl: string -> Outcome<string>,
    /** for a class name and a text key format: obtain the class's builder by
        reflection, merge the text into it, build and serialize the message;
        it fails with a ReflectiveOperationException when the builder cannot
        be obtained and with a ParseException when the text does not merge */
    parseKeyFormat: (string, string) -> Result<bytes, Exception>,
    /** Registry.INSTANCE.newKey; Fail(m) is a GeneralSecurityException with message m */
    newKey: KeyTemplate -> Outcome<string>)

  // ---------------------------------------------------------------------------
  // Proto class names

  /** The proto class name in a type URL: what follows its last '.', or the
      whole URL when it has no '.'. */
  function ProtoClassName(typeUrl: string): (name: string)
    ensures EndsWith(typeUrl, name)
    ensures '.' !in name
    ensures |name| < |typeUrl| ==> typeUrl[|typeUrl| - |name| - 1] == '.'
  {
    var dot := LastIndexOf(typeUrl, '.');
    var name := typeUrl[dot + 1..];
    assert forall k :: 0 <= k < |name| ==> name[k] != '.' by {
      forall k | 0 <= k < |name| ensures name[k] != '.' {
        assert name[k] == typeUrl[dot + 1 + k];
      }
    }
    name
  }

  /** getProtoClassName: the type URL is validated first. */
  function GetProtoClassName(rt: Runtime, typeUrl: string): (r: Result<string, Exception>)
    ensures r.Success? <==> rt.validateTypeUrl(typeUrl).Pass?
    ensures r.Success? ==> r.value == ProtoClassName(typeUrl)
    ensures r.Failure? ==> r.error == GeneralSecurityException(rt.validateTypeUrl(typeUrl).error)
  {
    match rt.validateTypeUrl(typeUrl)
    case Fail(message) => Failure(GeneralSecurityException(message))
    case Pass => Success(ProtoClassName(typeUrl))
  }

  /** The three conditions on ProtoClassName determine it. */
  lemma ProtoClassNameUnique(typeUrl: string, name: string)
    requires EndsWith(typeUrl, name) && '.' !in name
    requires |name| == |typeUrl| || typeUrl[|typeUrl| - |name| - 1] == '.'
    ensures ProtoClassName(typeUrl) == name
  {
    var found := ProtoClassName(typeUrl);
    // Both are suffixes; if one were longer, it would hold the '.' that
    // precedes the shorter one.
    assert |found| == |name|;
  }

  /** A type URL without '.' is its own class name. */
  lemma ProtoClassNameWithoutDot(typeUrl: string)
    requires '.' !in typeUrl
    ensures ProtoClassName(typeUrl) == typeUrl
  {
    ProtoClassNameUnique(typeUrl, typeUrl);
  }

  lemma ProtoClassNameOfAesGcmKey()
    ensures ProtoClassName("type.googleapis.com/google.crypto.tink.AesGcmKey") == "AesGcmKey"
  {
    var url := "type.googleapis.com/google.crypto.tink.AesGcmKey";
    assert url[|url| - 9..] == "AesGcmKey";
    assert url[|url| - 10] == '.';
    ProtoClassNameUnique(url, "AesGcmKey");
  }

  // ---------------------------------------------------------------------------
  // Key format class names

  /** The key format class name for a key class name: the suffix "Format" is
      appended, then every occurrence of "Private" found in one left-to-right
      pass is removed. */
  function KeyFormatName(className: string): (r: string)
    ensures EndsWith(r, KEY_FORMAT_SUFFIX)
    ensures !Contains(className, PRIVATE) ==> r == className + KEY_FORMAT_SUFFIX
  {
    RemovalKeepsFormatSuffix(className);
    KeyFormatNameWithoutPrivate(className);
    Replace(className + KEY_FORMAT_SUFFIX, PRIVATE, "")
  }

  /** No occurrence of "Private" can start in the class name and run into the
      appended "Format": none of "rivate" .. "e" starts with 'F'. */
  lemma NoPrivateAcrossSuffix(className: string, i: nat)
    requires i < |className| < i + |PRIVATE|
    ensures !OccursAt(className + KEY_FORMAT_SUFFIX, PRIVATE, i)
  {
    var s := className + KEY_FORMAT_SUFFIX;
    if i + |PRIVATE| <= |s| {
      assert s[|className|] == 'F';
      assert s[i..i + |PRIVATE|][|className| - i] == s[|className|];
    }
  }

  /** Removing "Private" never touches the trailing "Format". */
  lemma RemovalKeepsFormatSuffix(x: string)
    ensures EndsWith(Replace(x + KEY_FORMAT_SUFFIX, PRIVATE, ""), KEY_FORMAT_SUFFIX)
  {
    RemovalKeepsFormatSuffixFrom(x, 0);
  }

  /** From any position inside the class name, the rest of the pass still
      ends with "Format". */
  lemma {:induction false} RemovalKeepsFormatSuffixFrom(x: string, i: nat)
    requires i <= |x|
    ensures EndsWith(ReplaceFrom(x + KEY_FORMAT_SUFFIX, PRIVATE, "", i), KEY_FORMAT_SUFFIX)
    decreases |x| - i
  {
    var s := x + KEY_FORMAT_SUFFIX;
    if |s| < i + |PRIVATE| {
      assert s[i..][|s| - i - |KEY_FORMAT_SUFFIX|..] == KEY_FORMAT_SUFFIX;
    } else if OccursAt(s, PRIVATE, i) {
      if i + |PRIVATE| > |x| {
        NoPrivateAcrossSuffix(x, i);
      }
      RemovalKeepsFormatSuffixFrom(x, i + |PRIVATE|);
    } else {
      var rest := ReplaceFrom(s, PRIVATE, "", i + 1);
      RemovalKeepsFormatSuffixFrom(x, i + 1);
      EndsWithAfterPrefix([s[i]], rest, KEY_FORMAT_SUFFIX);
    }
  }

  /** Putting text in front of a string keeps what it ends with. */
  lemma EndsWithAfterPrefix(p: string, s: string, suffix: string)
    requires EndsWith(s, suffix)
    ensures EndsWith(p + s, suffix)
  {
    assert (p + s)[|p + s| - |suffix|..] == s[|s| - |suffix|..];
  }

  /** A class name without "Private" just gets "Format" appended. */
  lemma KeyFormatNameWithoutPrivate(className: string)
    ensures !Contains(className, PRIVATE) ==>
              Replace(className + KEY_FORMAT_SUFFIX, PRIVATE, "") == className + KEY_FORMAT_SUFFIX
  {
    if !Contains(className, PRIVATE) {
      NoPrivateWithSuffix(className);
      ReplaceWithoutOccurrence(className + KEY_FORMAT_SUFFIX, PRIVATE, "");
    }
  }

  /** Appending "Format" to a name without "Private" creates none. */
  lemma NoPrivateWithSuffix(className: string)
    requires !Contains(className, PRIVATE)
    ensures forall i: nat :: !OccursAt(className + KEY_FORMAT_SUFFIX, PRIVATE, i)
  {
    var s := className + KEY_FORMAT_SUFFIX;
    forall i: nat ensures !OccursAt(s, PRIVATE, i) {
      if i + |PRIVATE| <= |className| {
        assert s[i..i + |PRIVATE|] == className[i..i + |PRIVATE|];
        assert !OccursAt(className, PRIVATE, i);
      } else if i < |className| {
        NoPrivateAcrossSuffix(className, i);
      }
    }
  }

  lemma KeyFormatNameOfAesGcmKey()
    ensures KeyFormatName("AesGcmKey") == "AesGcmKeyFormat"
  {
    NoOccurrenceWithoutFirstChar("AesGcmKey", PRIVATE, 9);
    assert forall i: nat :: 9 <= i ==> !OccursAt("AesGcmKey", PRIVATE, i);
  }

  /** XyzPrivateKey gives XyzKeyFormat: a name holding one "Private", with
      no other "Private" before or after it, loses it. */
  lemma KeyFormatNameDropsPrivate(prefix: string, rest: string)
    requires !Contains(prefix, PRIVATE) && !Contains(rest, PRIVATE)
    ensures KeyFormatName(prefix + PRIVATE + rest) == prefix + rest + KEY_FORMAT_SUFFIX
  {
    var tail := rest + KEY_FORMAT_SUFFIX;
    assert prefix + PRIVATE + rest + KEY_FORMAT_SUFFIX == prefix + PRIVATE + tail;
    NoPrivateInPrefix(prefix, tail);
    NoPrivateWithSuffix(rest);
    ReplaceSingleOccurrence(prefix, PRIVATE, tail, "");
  }

  lemma NoPrivateInPrefix(prefix: string, after: string)
    requires !Contains(prefix, PRIVATE)
    ensures forall i: nat :: i < |prefix| ==> !OccursAt(prefix + PRIVATE + after, PRIVATE, i)
  {
    forall i: nat | i < |prefix| ensures !OccursAt(prefix + PRIVATE + after, PRIVATE, i) {
      NoPrivateBeforeFirst(prefix, after, i);
    }
  }

  /** In prefix + "Private" + after, no "Private" starts inside a prefix free
      of it: one wholly inside would be in the prefix, and one reaching into
      the inserted "Private" would need a second 'P' in "Private". */
  lemma NoPrivateBeforeFirst(prefix: string, after: string, i: nat)
    requires !Contains(prefix, PRIVATE) && i < |prefix|
    ensures !OccursAt(prefix + PRIVATE + after, PRIVATE, i)
  {
    var s := prefix + PRIVATE + after;
    if i + |PRIVATE| <= |prefix| {
      assert s[i..i + |PRIVATE|] == prefix[i..i + |PRIVATE|];
      assert !OccursAt(prefix, PRIVATE, i);
    } else {
      assert s[|prefix|] == 'P';
      MismatchMeansNoOccurrence(s, PRIVATE, i, |prefix| - i);
    }
  }

  lemma KeyFormatNameOfEcdsaPrivateKey()
    ensures KeyFormatName("EcdsaPrivateKey") == "EcdsaKeyFormat"
  {
    assert "Ecdsa" + PRIVATE + "Key" == "EcdsaPrivateKey";
    PrivateFreeHasNoPrivate("Ecdsa");
    PrivateFreeHasNoPrivate("Key");
    KeyFormatNameDropsPrivate("Ecdsa", "Key");
  }


  /** A name with another capital 'P' before "Private" loses it too. */
  lemma KeyFormatNameOfRsaSsaPkcs1PrivateKey()
    ensures KeyFormatName("RsaSsaPkcs1PrivateKey") == "RsaSsaPkcs1KeyFormat"
  {
    var prefix := "RsaSsaPkcs1";
    assert prefix + PRIVATE + "Key" == "RsaSsaPkcs1PrivateKey";
    assert prefix + "Key" + KEY_FORMAT_SUFFIX == "RsaSsaPkcs1KeyFormat";
    NoOccurrenceWithoutFirstChar(prefix, PRIVATE, 6);
    assert forall i: nat :: 6 <= i ==> !OccursAt(prefix, PRIVATE, i);
    PrivateFreeHasNoPrivate("Key");
    KeyFormatNameDropsPrivate(prefix, "Key");
  }

  /** A string without 'P' holds no "Private". */
  lemma PrivateFreeHasNoPrivate(s: string)
    requires 'P' !in s
    ensures !Contains(s, PRIVATE)
  {
    NoOccurrenceWithoutFirstChar(s, PRIVATE, |s|);
    assert forall i: nat :: |s| <= i ==> !OccursAt(s, PRIVATE, i);
  }

  /** The removal is a single pass: taking out the inner "Private" of
      "PrivPrivateate..." joins the letters around it into a new "Private",
      which stays in the key format name. */
  lemma KeyFormatNameMayKeepPrivate(rest: string)
    requires 'P' !in rest
    ensures KeyFormatName("Priv" + PRIVATE + "ate" + rest) == PRIVATE + rest + KEY_FORMAT_SUFFIX
    ensures Contains(KeyFormatName("Priv" + PRIVATE + "ate" + rest), PRIVATE)
  {
    var tail := "ate" + rest + KEY_FORMAT_SUFFIX;
    var kept := PRIVATE + rest + KEY_FORMAT_SUFFIX;
    calc {
      KeyFormatName("Priv" + PRIVATE + "ate" + rest);
      Replace("Priv" + PRIVATE + "ate" + rest + KEY_FORMAT_SUFFIX, PRIVATE, "");
      { assert "Priv" + PRIVATE + "ate" + rest + KEY_FORMAT_SUFFIX == "Priv" + PRIVATE + tail; }
      Replace("Priv" + PRIVATE + tail, PRIVATE, "");
      { NestedPrivateFirstMatch(tail);
        assert 'P' !in tail;
        PrivateFreeHasNoPrivate(tail);
        ReplaceSingleOccurrence("Priv", PRIVATE, tail, ""); }
      "Priv" + "" + tail;
      { assert "Priv" + "" + tail == kept; }
      kept;
    }
    assert OccursAt(kept, PRIVATE, 0);
  }

  /** In "PrivPrivate...", no "Private" starts before position 4. */
  lemma NestedPrivateFirstMatch(tail: string)
    ensures forall i: nat :: i < 4 ==> !OccursAt("Priv" + PRIVATE + tail, PRIVATE, i)
  {
    var s := "Priv" + PRIVATE + tail;
    assert s[6] == 'i';
    MismatchMeansNoOccurrence(s, PRIVATE, 0, 6);
    assert s[1] == 'r' && s[2] == 'i' && s[3] == 'v';
    MismatchMeansNoOccurrence(s, PRIVATE, 1, 0);
    MismatchMeansNoOccurrence(s, PRIVATE, 2, 0);
    MismatchMeansNoOccurrence(s, PRIVATE, 3, 0);
  }


  // ---------------------------------------------------------------------------
  // Class lookup

  /** loadClass's test: the lower-cased class name ends with the lower-cased
      name looked for. */
  predicate Matches(name: string, className: string) {
    EndsWith(ToLowerCase(name), ToLowerCase(className))
  }

  /** Entry `i` is the first entry of the class path that matches. */
  predicate IsFirstMatch(classPath: seq<string>, className: string, i: nat) {
    && i < |classPath|
    && Matches(classPath[i], className)
    && forall j :: 0 <= j < i ==> !Matches(classPath[j], className)
  }

  /** There is at most one first match. */
  lemma FirstMatchUnique(classPath: seq<string>, className: string, i: nat, j: nat)
    requires IsFirstMatch(classPath, className, i) && IsFirstMatch(classPath, className, j)
    ensures i == j
  {
  }

  /** The first match at or after `from`. */
  function FindClassFrom(classPath: seq<string>, className: string, from: nat): (r: Result<nat, Exception>)
    ensures r.Success? ==>
              && from <= r.value < |classPath|
              && Matches(classPath[r.value], className)
              && forall j :: from <= j < r.value ==> !Matches(classPath[j], className)
    ensures r.Failure? ==>
              && r.error == IOException(CLASS_NOT_FOUND_MESSAGE + className)
              && forall j :: from <= j < |classPath| ==> !Matches(classPath[j], className)
    decreases |classPath| - from
  {
    if from >= |classPath| then Failure(IOException(CLASS_NOT_FOUND_MESSAGE + className))
    else if Matches(classPath[from], className) then Success(from)
    else FindClassFrom(classPath, className, from + 1)
  }

  /** The class loadClass picks: the first match, or "class not found" when
      no entry matches. */
  function FindClass(classPath: seq<string>, className: string): (r: Result<nat, Exception>)
    ensures r.Success? ==> IsFirstMatch(classPath, className, r.value)
    ensures r.Failure? <==> forall j :: 0 <= j < |classPath| ==> !Matches(classPath[j], className)
    ensures r.Failure? ==> r.error == IOException(CLASS_NOT_FOUND_MESSAGE + className)
  {
    FindClassFrom(classPath, className, 0)
  }

  /** loadClass: scan the class path in order and stop at the first match. */
  method LoadClass(classPath: seq<string>, className: string) returns (r: Result<nat, Exception>)
    ensures r.Success? ==> IsFirstMatch(classPath, className, r.value)
    ensures r.Failure? ==> r.error == IOException(CLASS_NOT_FOUND_MESSAGE + className)
    ensures r == FindClass(classPath, className)
  {
    var target := ToLowerCase(className);
    for i := 0 to |classPath|
      invariant forall j :: 0 <= j < i ==> !Matches(classPath[j], className)
    {
      if EndsWith(ToLowerCase(classPath[i]), target) {
        return Success(i);
      }
    }
    return Failure(IOException(CLASS_NOT_FOUND_MESSAGE + className));
  }

  /** Names that differ only in case find the same class. */
  lemma FindClassIgnoresCase(classPath: seq<string>, a: string, b: string)
    requires ToLowerCase(a) == ToLowerCase(b)
    ensures FindClass(classPath, a).Success? <==> FindClass(classPath, b).Success?
    ensures FindClass(classPath, a).Success? ==> FindClass(classPath, a).value == FindClass(classPath, b).value
  {
    var ra, rb := FindClass(classPath, a), FindClass(classPath, b);
    if ra.Success? && rb.Success? {
      if ra.value < rb.value {
        assert Matches(classPath[ra.value], b);
      } else if rb.value < ra.value {
        assert Matches(classPath[rb.value], a);
      }
    }
  }

  /** The match is on the end of the name only, not on a whole simple name:
      an entry such as p.AesCtrHmacKeyFormat that comes first is picked when
      looking for HmacKeyFormat. */
  lemma FindClassMatchesLongerName(prefix: string, className: string, later: seq<string>)
    ensures FindClass([prefix + className] + later, className) == Success(0)
  {
    ToLowerCaseAppend(prefix, className);
    var lowered := ToLowerCase(prefix + className);
    assert lowered[|lowered| - |className|..] == ToLowerCase(className);
    assert IsFirstMatch([prefix + className] + later, className, 0);
  }

  // ---------------------------------------------------------------------------
  // Key templates

  /** createKeyTemplateFromBinary: the template is returned only if the
      registry can generate a key from it. */
  function CreateKeyTemplateFromBinary(rt: Runtime, typeUrl: string, format: bytes): (r: Result<KeyTemplate, Exception>)
    ensures r.Success? <==> rt.newKey(KeyTemplate(typeUrl, format)).Pass?
    ensures r.Success? ==> r.value.typeUrl == typeUrl && r.value.value == format
    ensures r.Failure? ==> r.error == GeneralSecurityException(rt.newKey(KeyTemplate(typeUrl, format)).error)
  {
    var template := KeyTemplate(typeUrl, format);
    match rt.newKey(template)
    case Fail(message) => Failure(GeneralSecurityException(message))
    case Pass => Success(template)
  }

  /** The key format class name the helpers derive from a type URL. */
  function KeyFormatNameOf(typeUrl: string): string {
    KeyFormatName(ProtoClassName(typeUrl))
  }

  /** The body of createKeyTemplateFromText's try block, with the exception
      each step may throw. */
  function KeyTemplateFromTextSteps(rt: Runtime, typeUrl: string, keyFormat: string): (r: Result<KeyTemplate, Exception>)
    ensures r.Success? ==>
              && r.value.typeUrl == typeUrl
              && rt.newKey(r.value).Pass?
              && rt.validateTypeUrl(typeUrl).Pass?
              && FindClass(rt.classPath, KeyFormatNameOf(typeUrl)).Success?
              && rt.parseKeyFormat(rt.classPath[FindClass(rt.classPath, KeyFormatNameOf(typeUrl)).value], keyFormat)
                 == Success(r.value.value)
  {
    var className :- GetProtoClassName(rt, typeUrl);
    var index :- FindClass(rt.classPath, KeyFormatName(className));
    var format :- rt.parseKeyFormat(rt.classPath[index], keyFormat);
    CreateKeyTemplateFromBinary(rt, typeUrl, format)
  }

  /** createKeyTemplateFromText: any failure becomes one IllegalArgumentException
      that carries the original exception as its cause; a template is returned
      only with the given type URL, the serialized format parsed by the class
      that loadClass picks, and only once the registry has accepted it. */
  function CreateKeyTemplateFromText(rt: Runtime, typeUrl: string, keyFormat: string): (r: Result<KeyTemplate, Exception>)
    ensures r.Failure? ==>
              && r.error.IllegalArgumentException?
              && r.error.message == INVALID_TEMPLATE_MESSAGE
              && r.error.cause.Some?
    ensures r.Success? ==>
              && r.value.typeUrl == typeUrl
              && rt.newKey(r.value).Pass?
              && rt.validateTypeUrl(typeUrl).Pass?
              && FindClass(rt.classPath, KeyFormatNameOf(typeUrl)).Success?
              && rt.parseKeyFormat(rt.classPath[FindClass(rt.classPath, KeyFormatNameOf(typeUrl)).value], keyFormat)
                 == Success(r.value.value)
  {
    match KeyTemplateFromTextSteps(rt, typeUrl, keyFormat)
    case Success(template) => Success(template)
    case Failure(e) => Failure(IllegalArgumentException(INVALID_TEMPLATE_MESSAGE, Some(e)))
  }

  /** Conversely, when every step succeeds the template is returned. */
  lemma CreateKeyTemplateFromTextSucceeds(rt: Runtime, typeUrl: string, keyFormat: string, index: nat, format: bytes)
    requires rt.validateTypeUrl(typeUrl).Pass?
    requires IsFirstMatch(rt.classPath, KeyFormatNameOf(typeUrl), index)
    requires rt.parseKeyFormat(rt.classPath[index], keyFormat) == Success(format)
    requires rt.newKey(KeyTemplate(typeUrl, format)).Pass?
    ensures CreateKeyTemplateFromText(rt, typeUrl, keyFormat) == Success(KeyTemplate(typeUrl, format))
  {
    var found := FindClass(rt.classPath, KeyFormatNameOf(typeUrl));
    if found.Success? {
      FirstMatchUnique(rt.classPath, KeyFormatNameOf(typeUrl), found.value, index);
    }
  }

  /** An invalid type URL fails before any class is looked up, and is the cause
      of the IllegalArgumentException. */
  lemma InvalidTypeUrlIsCause(rt: Runtime, typeUrl: string, keyFormat: string)
    requires rt.validateTypeUrl(typeUrl).Fail?
    ensures CreateKeyTemplateFromText(rt, typeUrl, keyFormat) ==
              Failure(IllegalArgumentException(INVALID_TEMPLATE_MESSAGE,
                Some(GeneralSecurityException(rt.validateTypeUrl(typeUrl).error))))
  {
  }

  /** When no class on the class path has the key format name, loadClass's
      "class not found" is the cause. */
  lemma MissingFormatClassIsCause(rt: Runtime, typeUrl: string, keyFormat: string)
    requires rt.validateTypeUrl(typeUrl).Pass?
    requires forall j :: 0 <= j < |rt.classPath| ==>
               !Matches(rt.classPath[j], KeyFormatNameOf(typeUrl))
    ensures CreateKeyTemplateFromText(rt, typeUrl, keyFormat) ==
              Failure(IllegalArgumentException(INVALID_TEMPLATE_MESSAGE,
                Some(IOException(CLASS_NOT_FOUND_MESSAGE + KeyFormatNameOf(typeUrl)))))
  {
  }

  // ---------------------------------------------------------------------------
  // Input and output formats

  datatype Encoding = Text | Binary

  /** validateInputOutputFormat: absent, "TEXT" and "BINARY" are accepted;
      anything else is an IllegalArgumentException naming it. */
  function ValidateInputOutputFormat(format: Option<string>): (r: Outcome<Exception>)
    ensures r.Pass? <==> format == None || format == Some(TEXT) || format == Some(BINARY)
    ensures r.Fail? ==> r.error == IllegalArgumentException(INVALID_FORMAT_MESSAGE + format.value, None)
  {
    if format.Some? && format.value != TEXT && format.value != BINARY then
      Fail(IllegalArgumentException(INVALID_FORMAT_MESSAGE + format.value, None))
    else
      Pass
  }

  /** The encoding writeProto and getKeysetHandle use: text when the format is
      absent or "TEXT", binary for every other value. Text is chosen exactly
      for accepted formats other than "BINARY"; an accepted "BINARY" and every
      rejected format fall to binary. */
  function SelectedEncoding(format: Option<string>): (r: Encoding)
    ensures r == Text <==> ValidateInputOutputFormat(format).Pass? && format != Some(BINARY)
  {
    if format == None || format.value == TEXT then Text else Binary
  }

  /** The proto encoders: text printing (to a UTF-8 string), text merging
      (from UTF-8 bytes into an empty builder), and binary serialization. */
  datatype ProtoCodec<!M> = ProtoCodec(
    printText: M -> bytes,
    mergeText: bytes -> Result<M, Exception>,
    toBytes: M -> bytes)

  /** The bytes writeProto writes to its stream. */
  function WriteProto<M>(codec: ProtoCodec<M>, proto: M, outFormat: Option<string>): (r: bytes)
    ensures outFormat == None || outFormat == Some(TEXT) ==> r == codec.printText(proto)
    ensures outFormat.Some? && outFormat.value != TEXT ==> r == codec.toBytes(proto)
  {
    match SelectedEncoding(outFormat)
    case Text => codec.printText(proto)
    case Binary => codec.toBytes(proto)
  }

  /** getKeysetHandle on the bytes read from its stream: text is merged into a
      Keyset and handed to `fromKeyset`; binary goes to `fromBytes`
      (the two CleartextKeysetHandle.parseFrom overloads). */
  function GetKeysetHandle<K, H>(codec: ProtoCodec<K>, fromKeyset: K -> Result<H, Exception>,
                                 fromBytes: bytes -> Result<H, Exception>,
                                 inBytes: bytes, inFormat: Option<string>): (r: Result<H, Exception>)
    ensures inFormat.Some? && inFormat.value != TEXT ==> r == fromBytes(inBytes)
    ensures (inFormat == None || inFormat == Some(TEXT)) && codec.mergeText(inBytes).Failure? ==>
              r == Failure(codec.mergeText(inBytes).error)
    ensures (inFormat == None || inFormat == Some(TEXT)) && codec.mergeText(inBytes).Success? ==>
              r == fromKeyset(codec.mergeText(inBytes).value)
  {
    match SelectedEncoding(inFormat)
    case Text =>
      var keyset :- codec.mergeText(inBytes);
      fromKeyset(keyset)
    case Binary => fromBytes(inBytes)
  }

  /** A keyset written with some format reads back under the same format,
      valid or not, provided the two encodings each round-trip it. */
  lemma WrittenKeysetReadsBack<K, H>(codec: ProtoCodec<K>, fromKeyset: K -> Result<H, Exception>,
                                     fromBytes: bytes -> Result<H, Exception>,
                                     keyset: K, format: Option<string>)
    requires codec.mergeText(codec.printText(keyset)) == Success(keyset)
    requires fromBytes(codec.toBytes(keyset)) == fromKeyset(keyset)
    ensures GetKeysetHandle(codec, fromKeyset, fromBytes, WriteProto(codec, keyset, format), format)
            == fromKeyset(keyset)
  {
  }
}
