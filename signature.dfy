/** The browser POST policy of `GenerateSignature`: the policy document, its
    base64 form, and the AWS Signature Version 4 signature over it. HMAC-SHA256
    (RFC 2104 over FIPS 180-4 SHA-256), the clock and the calendar reading of an
    instant are parameters. */
module Signature {

  import opened Wrappers
  import opened GoStrings
  import opened Encoding
  import opened TimeFormat
  import opened Client

  // ---------------------------------------------------------------------------
  // Go's int and time.Duration: 64-bit two's complement

  newtype int64 = x: int | -0x8000_0000_0000_0000 <= x < 0x8000_0000_0000_0000

  /** The int64 that a wider integer wraps around to. */
  function WrapInt64(x: int): (r: int64)
    ensures (r as int - x) % 0x1_0000_0000_0000_0000 == 0
  {
    ((x + 0x8000_0000_0000_0000) % 0x1_0000_0000_0000_0000 - 0x8000_0000_0000_0000) as int64
  }

  /** `time.Minute * time.Duration(minutes)`: nanoseconds, multiplied in int64. */
  function ExpiryOffset(minutes: int64): int64
  {
    WrapInt64(60_000_000_000 * minutes as int)
  }

  /** The offset is exact for expiries up to 153722867 minutes (about 292
      years) either way. */
  lemma ExpiryOffsetExact(minutes: int64)
    requires -153_722_867 <= minutes <= 153_722_867
    ensures ExpiryOffset(minutes) as int == 60_000_000_000 * minutes as int
  {
  }

  /** One minute more and the product wraps: a positive expiry then lies in
      the past. */
  lemma ExpiryOffsetWraps()
    ensures ExpiryOffset(153_722_868) < 0
  {
  }

  /** `time.Now().Add(...)`: `now` is an instant in nanoseconds; `Time.Add`
      itself does not wrap on this range. */
  function ExpiresAt(now: int, minutes: int64): int
  {
    now + ExpiryOffset(minutes) as int
  }

  // ---------------------------------------------------------------------------
  // Inputs and outputs

  datatype GenerateSignatureParams = GenerateSignatureParams(
    key: string, contentType: string, expiryMinutes: int64,
    acl: string, bucket: string, maxFileSize: int64)

  datatype Signature = Signature(
    key: string, url: string, policy: string, credential: string, algorithm: string,
    signature: string, date: string, acl: string, contentType: string)

  /** An HMAC-SHA256 tag. */
  type Digest = d: seq<byte> | |d| == 32 witness seq(32, i => 0)

  /** `makeHmac(key, data)`: HMAC-SHA256 of `data` under `key`. */
  type Hmac = (seq<byte>, seq<byte>) -> Digest

  const DefaultAcl := "public-read"
  const Algorithm := "AWS4-HMAC-SHA256"
  const DefaultMaxFileSize: int64 := 40_971_520

  function EffectiveAcl(acl: string): (r: string)
    ensures r != ""
    ensures acl != "" ==> r == acl
    ensures acl == "" ==> r == "public-read"
  {
    if acl == "" then DefaultAcl else acl
  }

  /** Only 0 means "unset": every other size, negative ones included, is kept. */
  function EffectiveMaxFileSize(size: int64): (r: int64)
    ensures r != 0
    ensures size != 0 ==> r == size
    ensures size == 0 ==> r == 40_971_520
  {
    if size == 0 then DefaultMaxFileSize else size
  }

  // ---------------------------------------------------------------------------
  // Formats

  /** The format "%s/%s/%s/s3/aws4_request", spelled as its pieces. */
  const CredentialFormat := "%s" + "/" + "%s" + "/" + "%s" + "/s3/aws4_request"

  /** The format "https://%s.s3.amazonaws.com", spelled as its pieces. */
  const BucketUrlFormat := "https://" + "%s" + ".s3.amazonaws.com"

  /** The credential scope: access key, date, region, service and the
      terminator of Signature Version 4. */
  function Credential(accessKey: string, shortDate: string, region: string): (c: string)
    ensures c == accessKey + "/" + shortDate + "/" + region + "/s3/aws4_request"
  {
    SprintfOne("", accessKey, "/");
    assert "" + "%s" + "/" == "%s" + "/";
    assert "" + accessKey + "/" == accessKey + "/";
    SprintfThenString("%s" + "/", [Str(accessKey)], shortDate);
    SprintfThenLiteral("%s" + "/" + "%s", [Str(accessKey)] + [Str(shortDate)], "/");
    SprintfThenString("%s" + "/" + "%s" + "/", [Str(accessKey)] + [Str(shortDate)], region);
    SprintfThenLiteral("%s" + "/" + "%s" + "/" + "%s", [Str(accessKey)] + [Str(shortDate)] + [Str(region)], "/s3/aws4_request");
    assert [Str(accessKey)] + [Str(shortDate)] + [Str(region)] == [Str(accessKey), Str(shortDate), Str(region)];
    Sprintf(CredentialFormat, [Str(accessKey), Str(shortDate), Str(region)])
  }

  function BucketUrl(bucket: string): (u: string)
    ensures u == "https://" + bucket + ".s3.amazonaws.com"
  {
    SprintfOne("https://", bucket, ".s3.amazonaws.com");
    Sprintf(BucketUrlFormat, [Str(bucket)])
  }

  // The literal text of the policy template, between its verbs. The template
  // starts with a newline; the acl, content-type and content-length-range
  // lines are indented with a tab, the others with spaces.
  const Policy0 := "\n{ \"expiration\": \""
  const Policy1 := "\",\n  \"conditions\": [\n    {\"bucket\": \""
  const Policy2 := "\"},\n    [\"starts-with\", \"$key\", \""
  const Policy3 := "\"],\n\t{\"acl\": \""
  const Policy4 := "\"},\n\t[\"starts-with\", \"$content-type\", \""
  const Policy5 := "\"],\n\t[\"content-length-range\", 1, "
  const Policy6 := "],\n    {\"x-amz-credential\": \""
  const Policy7 := "\"},\n    {\"x-amz-algorithm\": \""
  const Policy8 := "\"},\n    {\"x-amz-date\": \""
  const Policy9 := "\" }\n  ]\n}\n"

  /** The policy template: nine verbs, the sixth (the size limit) a `%d`. */
  const PolicyTemplate :=
    Policy0 + "%s" + Policy1 + "%s" + Policy2 + "%s" + Policy3 + "%s" + Policy4 + "%s" +
    Policy5 + "%d" + Policy6 + "%s" + Policy7 + "%s" + Policy8 + "%s" + Policy9

  /** The policy document with its fields in template order: expiration,
      bucket, key prefix, ACL, content type, size limit, credential,
      algorithm and date. */
  function PolicyDocument(expiration: string, bucket: string, key: string, acl: string,
                          contentType: string, maxFileSize: int64, credential: string,
                          algorithm: string, date: string): string
  {
    Policy0 + (expiration + (Policy1 + (bucket + (Policy2 + (key + (Policy3 + (acl + (Policy4 + (contentType +
    (Policy5 + (FormatInt(maxFileSize as int) + (Policy6 + (credential + (Policy7 + (algorithm + (Policy8 + (date + Policy9)))))))))))))))))
  }

  function PolicyArgs(expiration: string, bucket: string, key: string, acl: string,
                      contentType: string, maxFileSize: int64, credential: string,
                      algorithm: string, date: string): seq<Arg>
  {
    [Str(expiration), Str(bucket), Str(key), Str(acl), Str(contentType),
     Int(maxFileSize as int), Str(credential), Str(algorithm), Str(date)]
  }

  // None of the literal pieces holds a '%', so each is copied as it is.
  lemma Policy0Plain() ensures '%' !in Policy0 {}
  lemma Policy1Plain() ensures '%' !in Policy1 {}
  lemma Policy2Plain() ensures '%' !in Policy2 {}
  lemma Policy3Plain() ensures '%' !in Policy3 {}
  lemma Policy4Plain() ensures '%' !in Policy4 {}
  lemma Policy5Plain() ensures '%' !in Policy5 {}
  lemma Policy6Plain() ensures '%' !in Policy6 {}
  lemma Policy7Plain() ensures '%' !in Policy7 {}
  lemma Policy8Plain() ensures '%' !in Policy8 {}
  lemma Policy9Plain() ensures '%' !in Policy9 {}

  /** The next three fields, the last of them the `%d`. */
  lemma FillMiddle(f: string, args: seq<Arg>, v3: string, p4: string, v4: string, p5: string, n: int, p6: string)
    requires Conforms(f, args) && '%' !in p4 && '%' !in p5 && '%' !in p6
    ensures Conforms(f + "%s" + p4 + "%s" + p5 + "%d" + p6, args + [Str(v3), Str(v4), Int(n)])
    ensures Sprintf(f + "%s" + p4 + "%s" + p5 + "%d" + p6, args + [Str(v3), Str(v4), Int(n)])
            == Sprintf(f, args) + v3 + p4 + v4 + p5 + FormatInt(n) + p6
  {
    SprintfThenStringText(f, args, v3, p4);
    SprintfThenStringText(f + "%s" + p4, args + [Str(v3)], v4, p5);
    SprintfThenIntText(f + "%s" + p4 + "%s" + p5, args + [Str(v3)] + [Str(v4)], n, p6);
    assert args + [Str(v3)] + [Str(v4)] + [Int(n)] == args + [Str(v3), Str(v4), Int(n)];
  }

  /** Three `%s` fields, each followed by literal text. */
  lemma FillThree(f: string, args: seq<Arg>, v6: string, p7: string, v7: string, p8: string, v8: string, p9: string)
    requires Conforms(f, args) && '%' !in p7 && '%' !in p8 && '%' !in p9
    ensures Conforms(f + "%s" + p7 + "%s" + p8 + "%s" + p9, args + [Str(v6), Str(v7), Str(v8)])
    ensures Sprintf(f + "%s" + p7 + "%s" + p8 + "%s" + p9, args + [Str(v6), Str(v7), Str(v8)])
            == Sprintf(f, args) + v6 + p7 + v7 + p8 + v8 + p9
  {
    SprintfThenStringText(f, args, v6, p7);
    SprintfThenStringText(f + "%s" + p7, args + [Str(v6)], v7, p8);
    SprintfThenStringText(f + "%s" + p7 + "%s" + p8, args + [Str(v6)] + [Str(v7)], v8, p9);
    assert args + [Str(v6)] + [Str(v7)] + [Str(v8)] == args + [Str(v6), Str(v7), Str(v8)];
  }

  /** Filling a template of the policy's shape, for any literal pieces. */
  lemma FillTemplate(p0: string, p1: string, p2: string, p3: string, p4: string,
                     p5: string, p6: string, p7: string, p8: string, p9: string,
                     v0: string, v1: string, v2: string, v3: string, v4: string,
                     n: int, v6: string, v7: string, v8: string)
    requires '%' !in p0 && '%' !in p1 && '%' !in p2 && '%' !in p3 && '%' !in p4
    requires '%' !in p5 && '%' !in p6 && '%' !in p7 && '%' !in p8 && '%' !in p9
    ensures var f := p0 + "%s" + p1 + "%s" + p2 + "%s" + p3 + "%s" + p4 + "%s" +
                     p5 + "%d" + p6 + "%s" + p7 + "%s" + p8 + "%s" + p9;
            var a := [Str(v0), Str(v1), Str(v2), Str(v3), Str(v4), Int(n), Str(v6), Str(v7), Str(v8)];
            Conforms(f, a) &&
            Sprintf(f, a) == p0 + (v0 + (p1 + (v1 + (p2 + (v2 + (p3 + (v3 + (p4 + (v4 +
                             (p5 + (FormatInt(n) + (p6 + (v6 + (p7 + (v7 + (p8 + (v8 + p9)))))))))))))))))
  {
    var front := p0 + "%s" + p1 + "%s" + p2 + "%s" + p3;
    var middle := front + "%s" + p4 + "%s" + p5 + "%d" + p6;
    var a1 := [Str(v0), Str(v1), Str(v2)];
    var a2 := a1 + [Str(v3), Str(v4), Int(n)];
    SprintfNone(p0);
    FillThree(p0, [], v0, p1, v1, p2, v2, p3);
    assert [] + a1 == a1;
    FillMiddle(front, a1, v3, p4, v4, p5, n, p6);
    FillThree(middle, a2, v6, p7, v7, p8, v8, p9);
    assert a2 + [Str(v6), Str(v7), Str(v8)] == [Str(v0), Str(v1), Str(v2), Str(v3), Str(v4), Int(n), Str(v6), Str(v7), Str(v8)];
    Regroup(p0, v0, p1, v1, p2, v2, p3, v3, p4, v4, p5, FormatInt(n), p6, v6, p7, v7, p8, v8, p9);
  }

  /** Nineteen pieces joined from the left are the same pieces joined from the right. */
  lemma Regroup(s0: string, s1: string, s2: string, s3: string, s4: string, s5: string, s6: string,
                s7: string, s8: string, s9: string, s10: string, s11: string, s12: string,
                s13: string, s14: string, s15: string, s16: string, s17: string, s18: string)
    ensures s0 + s1 + s2 + s3 + s4 + s5 + s6 + s7 + s8 + s9 + s10 + s11 + s12 + s13 + s14 + s15 + s16 + s17 + s18 ==
            s0 + (s1 + (s2 + (s3 + (s4 + (s5 + (s6 + (s7 + (s8 + (s9 +
            (s10 + (s11 + (s12 + (s13 + (s14 + (s15 + (s16 + (s17 + s18)))))))))))))))))
  {
  }

  /** Filling the policy template puts each argument in its place. */
  lemma FillPolicy(expiration: string, bucket: string, key: string, acl: string,
                   contentType: string, maxFileSize: int64, credential: string,
                   algorithm: string, date: string)
    ensures Conforms(PolicyTemplate, PolicyArgs(expiration, bucket, key, acl, contentType, maxFileSize, credential, algorithm, date))
    ensures Sprintf(PolicyTemplate, PolicyArgs(expiration, bucket, key, acl, contentType, maxFileSize, credential, algorithm, date))
            == PolicyDocument(expiration, bucket, key, acl, contentType, maxFileSize, credential, algorithm, date)
  {
    Policy0Plain(); Policy1Plain(); Policy2Plain(); Policy3Plain(); Policy4Plain();
    Policy5Plain(); Policy6Plain(); Policy7Plain(); Policy8Plain(); Policy9Plain();
    FillTemplate(Policy0, Policy1, Policy2, Policy3, Policy4, Policy5, Policy6, Policy7, Policy8, Policy9,
                 expiration, bucket, key, acl, contentType, maxFileSize as int, credential, algorithm, date);
  }

  // ---------------------------------------------------------------------------
  // The signature

  /** The signing key of Signature Version 4 for the service "s3": the secret
      prefixed with "AWS4" keys an HMAC of the date stamp, whose tag keys an
      HMAC of the region, then of "s3", then of "aws4_request". */
  function SigningKey(hmac: Hmac, secretKey: string, dateStamp: string, region: string): Digest
  {
    hmac(hmac(hmac(hmac(Utf8("AWS4" + secretKey), Utf8(dateStamp)), Utf8(region)), Utf8("s3")), Utf8("aws4_request"))
  }

  /** The expiration the policy states: `t` in the layout of `expirationFormat`. */
  function ExpirationOf(params: GenerateSignatureParams, now: int, utc: int -> DateTime): string
  {
    FormatExpiration(utc(ExpiresAt(now, params.expiryMinutes)))
  }

  /** `GenerateSignature`. The clock reading `now` and the calendar `utc` stand
      for `time.Now()` and `Time.UTC`; `hmac` stands for `makeHmac`. The policy
      document is the template filled in (`FillPolicy` shows it is what
      `fmt.Sprintf` makes of the template and the nine values). */
  function GenerateSignature(config: Config, params: GenerateSignatureParams, now: int,
                             utc: int -> DateTime, hmac: Hmac): (sig: Signature)
    ensures sig.key == params.key && sig.contentType == params.contentType
    ensures sig.algorithm == "AWS4-HMAC-SHA256"
    ensures sig.url == "https://" + params.bucket + ".s3.amazonaws.com"
    ensures sig.acl == EffectiveAcl(params.acl)
    ensures sig.date == FormatBasic(utc(ExpiresAt(now, params.expiryMinutes)))
    ensures |sig.date| == 16
    ensures sig.credential == config.accessKey + "/" + sig.date[..8] + "/" + config.region + "/s3/aws4_request"
  {
    var t := ExpiresAt(now, params.expiryMinutes);
    var cal := utc(t);
    var formattedShortTime := FormatShortDate(cal);
    var date := FormatBasic(cal);
    var cred := Credential(config.accessKey, formattedShortTime, config.region);
    var acl := EffectiveAcl(params.acl);
    var maxFileSize := EffectiveMaxFileSize(params.maxFileSize);
    var document := PolicyDocument(FormatExpiration(cal), params.bucket, params.key, acl, params.contentType,
                                   maxFileSize, cred, Algorithm, date);
    var policy := Base64Encode(Utf8(document));
    var h1 := hmac(Utf8("AWS4" + config.secretKey), Utf8(date[..8]));
    var h2 := hmac(h1, Utf8(config.region));
    var h3 := hmac(h2, Utf8("s3"));
    var h4 := hmac(h3, Utf8("aws4_request"));
    var signature := HexEncode(hmac(h4, Utf8(policy)));
    Signature(params.key, BucketUrl(params.bucket), policy, cred, Algorithm, signature, date, acl, params.contentType)
  }

  /** The policy field is the base64 text of the policy document's bytes: it
      decodes to exactly the document, filled in with the expiration, the
      bucket, the key prefix, the ACL, the content-type prefix, the size bound,
      the credential, the algorithm and the date, and it is four characters for
      every three bytes. */
  lemma GeneratedPolicy(config: Config, params: GenerateSignatureParams, now: int,
                        utc: int -> DateTime, hmac: Hmac)
    ensures var sig := GenerateSignature(config, params, now, utc, hmac);
            var document := PolicyDocument(ExpirationOf(params, now, utc), params.bucket, params.key, sig.acl,
                                           params.contentType, EffectiveMaxFileSize(params.maxFileSize),
                                           sig.credential, sig.algorithm, sig.date);
            Base64Decode(sig.policy) == Some(Utf8(document)) &&
            |sig.policy| == 4 * ((|Utf8(document)| + 2) / 3)
  {
    var sig := GenerateSignature(config, params, now, utc, hmac);
    var document := PolicyDocument(ExpirationOf(params, now, utc), params.bucket, params.key, sig.acl,
                                   params.contentType, EffectiveMaxFileSize(params.maxFileSize),
                                   sig.credential, sig.algorithm, sig.date);
    assert sig.policy == Base64Encode(Utf8(document));
    Base64RoundTrip(Utf8(document));
    Base64Length(Utf8(document));
  }

  /** The signature field is the lower-case hexadecimal HMAC of the encoded
      policy under the Signature Version 4 key derived from the secret, the
      date stamp `date[:8]` and the region. */
  lemma GeneratedSignature(config: Config, params: GenerateSignatureParams, now: int,
                           utc: int -> DateTime, hmac: Hmac)
    ensures var sig := GenerateSignature(config, params, now, utc, hmac);
            HexDecode(sig.signature) ==
              Some(hmac(SigningKey(hmac, config.secretKey, sig.date[..8], config.region), Utf8(sig.policy))) &&
            |sig.signature| == 64 &&
            forall i :: 0 <= i < |sig.signature| ==> IsLowerHex(sig.signature[i])
  {
    var sig := GenerateSignature(config, params, now, utc, hmac);
    var mac := hmac(SigningKey(hmac, config.secretKey, sig.date[..8], config.region), Utf8(sig.policy));
    assert sig.signature == HexEncode(mac);
    HexDigest(mac);
  }

  /** Go slices the string `date[:8]` by bytes; the date is ASCII, so the
      first eight characters are the first eight bytes. */
  lemma DateStampBytes(t: DateTime)
    ensures |Utf8(FormatBasic(t))| == 16
    ensures Utf8(FormatBasic(t))[..8] == Utf8(FormatBasic(t)[..8])
  {
    AsciiPrefixBytes(FormatBasic(t), 8);
  }

  /** A digest in hexadecimal: 64 lower-case digits that decode back to it. */
  lemma HexDigest(mac: Digest)
    ensures var s := HexEncode(mac);
            HexDecode(s) == Some(mac) && |s| == 64 && forall i :: 0 <= i < |s| ==> IsLowerHex(s[i])
  {
    HexRoundTrip(mac);
    HexEncodeShape(mac);
  }

  /** The returned `x-amz-date` and the policy's expiration are renderings of
      the same instant `t`: read back, they show the same calendar fields. */
  lemma DateAndExpirationAgree(config: Config, params: GenerateSignatureParams, now: int,
                               utc: int -> DateTime, hmac: Hmac)
    ensures var cal := utc(ExpiresAt(now, params.expiryMinutes));
            ParseBasic(GenerateSignature(config, params, now, utc, hmac).date) == Some(ClockOf(cal)) &&
            ParseExpiration(ExpirationOf(params, now, utc)) == Some((ClockOf(cal), cal.nanosecond / 1_000_000))
  {
    var cal := utc(ExpiresAt(now, params.expiryMinutes));
    ParseFormatBasic(cal);
    ParseFormatExpiration(cal);
  }
}
