/** `parse_data_url`: admission of a `data:<mime>;base64,<payload>` string
    (the data URL syntax of section 3 of RFC 2397, restricted to base64),
    checked against the MIME allowlist and the 25 MiB size limit. */
module DataUrl {
  import opened Wrappers
  import opened Base64
  import opened Errors
  import Text

  /** `ALLOWED_MIMES`: accepted MIME type to stored file extension. */
  const AllowedMimes: map<string, string> :=
    map["image/jpeg" := "jpg", "image/png" := "png", "image/webp" := "webp"]

  const MaxSizeMb: nat := 25

  /** The largest accepted decoded payload, in bytes. */
  const MaxBytes: nat := MaxSizeMb * 1024 * 1024

  /** Every stored extension is plain lower-case letters. */
  lemma ExtensionIsPlain(mime: string)
    requires mime in AllowedMimes
    ensures forall i :: 0 <= i < |AllowedMimes[mime]| ==> 'a' <= AllowedMimes[mime][i] <= 'z'
  {
    var ext := AllowedMimes[mime];
    if mime == "image/jpeg" { assert ext == "jpg"; }
    else if mime == "image/png" { assert ext == "png"; }
    else { assert ext == "webp"; }
  }

  /** The ASCII part of the character class `[\w\-\.+/]` of the MIME group. */
  predicate IsMimeChar(c: char) {
    'A' <= c <= 'Z' || 'a' <= c <= 'z' || '0' <= c <= '9' || c == '_' || c == '-' || c == '.' || c == '+' || c == '/'
  }

  /** What the MIME group `[\w\-\.+/]+` matches. */
  predicate IsMimeToken(s: string) {
    |s| >= 1 && forall i :: 0 <= i < |s| ==> IsMimeChar(s[i])
  }

  /** What the payload group `.+` matches: one or more characters other than
      a newline. */
  predicate IsPayloadText(s: string) {
    |s| >= 1 && forall i :: 0 <= i < |s| ==> s[i] != '\n'
  }

  datatype DataUrlParts = DataUrlParts(mime: string, payload: string)

  /** `DATA_URL_RE.match`: the MIME group cannot contain `;`, so it ends at
      the first `;`, which must start the literal `;base64,`. */
  function MatchDataUrl(s: string): (r: Option<DataUrlParts>)
    ensures r.Some? ==> IsMimeToken(r.value.mime) && IsPayloadText(r.value.payload)
    ensures r.Some? ==> s == "data:" + r.value.mime + ";base64," + r.value.payload
  {
    if |s| < 5 || s[..5] != "data:" then None
    else
      var rest := s[5..];
      var k := Text.FirstIndexOf(rest, ';');
      var mime := rest[..k];
      var tail := rest[k..];
      if !IsMimeToken(mime) || |tail| < 8 || tail[..8] != ";base64," || !IsPayloadText(tail[8..]) then None
      else
        assert s == s[..5] + rest && rest == mime + tail && tail == tail[..8] + tail[8..];
        Some(DataUrlParts(mime, tail[8..]))
  }

  /** Every string of the documented shape matches, with exactly its MIME
      type and payload as the groups. */
  lemma MatchDataUrlComplete(mime: string, payload: string)
    requires IsMimeToken(mime) && IsPayloadText(payload)
    ensures MatchDataUrl("data:" + mime + ";base64," + payload) == Some(DataUrlParts(mime, payload))
  {
    var s := "data:" + mime + ";base64," + payload;
    var rest := s[5..];
    assert rest == mime + [';'] + ("base64," + payload);
    Text.FirstIndexOfSplit(mime, ';', "base64," + payload);
    assert rest[..|mime|] == mime;
    assert rest[|mime|..] == ";base64," + payload;
  }

  /** What `parse_data_url` returns: the MIME type and the decoded bytes. */
  datatype Payload = Payload(mime: string, binary: seq<byte>)

  /** `parse_data_url`: shape, then MIME allowlist, then strict base64, then
      size, each failure with its own error. */
  function ParseDataUrl(s: string): (r: Result<Payload, UploadError>)
    ensures r != Failure(InvalidDataUrl) <==> MatchDataUrl(s).Some?
    ensures r.Success? ==> r.value.mime == MatchDataUrl(s).value.mime
    ensures r.Success? ==> Decode(MatchDataUrl(s).value.payload) == Some(r.value.binary)
    ensures r.Success? ==> r.value.mime in AllowedMimes && 1 <= |r.value.binary| <= MaxBytes
  {
    match MatchDataUrl(s)
    case None => Failure(InvalidDataUrl)
    case Some(parts) =>
      if parts.mime !in AllowedMimes then Failure(MimeNotAllowed(parts.mime))
      else match Decode(parts.payload)
        case None => Failure(InvalidBase64)
        case Some(binary) =>
          if |binary| > MaxBytes then Failure(PayloadTooLarge(MaxSizeMb))
          else Success(Payload(parts.mime, binary))
  }

  /** The outcome for every string of the documented shape, in the order the
      checks are made. */
  lemma ParseWellShaped(mime: string, payload: string)
    requires IsMimeToken(mime) && IsPayloadText(payload)
    ensures ParseDataUrl("data:" + mime + ";base64," + payload) ==
      if mime !in AllowedMimes then Failure(MimeNotAllowed(mime))
      else if Decode(payload).None? then Failure(InvalidBase64)
      else if |Decode(payload).value| > MaxBytes then Failure(PayloadTooLarge(MaxSizeMb))
      else Success(Payload(mime, Decode(payload).value))
  {
    MatchDataUrlComplete(mime, payload);
  }

  predicate HasMarkerAt(s: string, i: nat) {
    i + 8 <= |s| && s[i..i + 8] == ";base64,"
  }

  /** A string that matches holds the `;base64,` marker right after its
      MIME type. */
  lemma MatchHasMarker(s: string)
    requires MatchDataUrl(s).Some?
    ensures HasMarkerAt(s, 5 + |MatchDataUrl(s).value.mime|)
  {
  }

  /** A string without the `;base64,` marker is rejected as an invalid data
      URL. */
  lemma MissingMarkerRejected(s: string)
    requires forall i: nat :: !HasMarkerAt(s, i)
    ensures ParseDataUrl(s) == Failure(InvalidDataUrl)
  {
    if MatchDataUrl(s).Some? {
      MatchHasMarker(s);
    }
  }

  /** A MIME type outside the allowlist is rejected and named in the error,
      whatever the payload. */
  lemma DisallowedMimeRejected(mime: string, payload: string)
    requires IsMimeToken(mime) && IsPayloadText(payload) && mime !in AllowedMimes
    ensures ParseDataUrl("data:" + mime + ";base64," + payload) == Failure(MimeNotAllowed(mime))
    ensures ParseDataUrl("data:" + mime + ";base64," + payload).error.Status() == 400
  {
    ParseWellShaped(mime, payload);
  }

  lemma GifRejected(payload: string)
    requires IsPayloadText(payload)
    ensures ParseDataUrl("data:image/gif;base64," + payload) == Failure(MimeNotAllowed("image/gif"))
  {
    assert "data:image/gif;base64," + payload == "data:" + "image/gif" + ";base64," + payload;
    DisallowedMimeRejected("image/gif", payload);
  }

  /** An encoding of at least one byte is a valid payload text. */
  lemma EncodeIsPayloadText(b: seq<byte>)
    requires |b| >= 1
    ensures IsPayloadText(Encode(b))
  {
    var e := Encode(b);
    var d := EncodeData(b);
    assert |d| >= 1;
    forall i | 0 <= i < |e| ensures e[i] != '\n' {
      if i < |d| {
        assert e[i] == d[i];
      }
    }
  }

  /** Round trip: a data URL built from an allowed MIME type and the base64
      encoding of 1 to 25 MiB bytes is admitted with exactly those bytes. */
  lemma ParseEncoded(mime: string, b: seq<byte>)
    requires mime in AllowedMimes
    requires 1 <= |b| <= MaxBytes
    ensures ParseDataUrl("data:" + mime + ";base64," + Encode(b)) == Success(Payload(mime, b))
  {
    assert IsMimeToken(mime);
    EncodeIsPayloadText(b);
    DecodeEncode(b);
    ParseWellShaped(mime, Encode(b));
  }

  /** An otherwise valid payload that decodes to more than 25 MiB is
      rejected with status 413. */
  lemma OversizeRejected(mime: string, b: seq<byte>)
    requires mime in AllowedMimes
    requires |b| > MaxBytes
    ensures ParseDataUrl("data:" + mime + ";base64," + Encode(b)) == Failure(PayloadTooLarge(25))
    ensures ParseDataUrl("data:" + mime + ";base64," + Encode(b)).error.Status() == 413
  {
    assert IsMimeToken(mime);
    EncodeIsPayloadText(b);
    DecodeEncode(b);
    ParseWellShaped(mime, Encode(b));
  }

  /** A payload with a character outside the base64 alphabet is rejected as
      invalid base64. */
  lemma ForeignCharRejected(mime: string, payload: string, i: nat)
    requires mime in AllowedMimes && IsPayloadText(payload)
    requires i < |payload| && !IsBase64Char(payload[i]) && payload[i] != '='
    ensures ParseDataUrl("data:" + mime + ";base64," + payload) == Failure(InvalidBase64)
  {
    assert IsMimeToken(mime);
    RejectsForeignChar(payload, i);
    ParseWellShaped(mime, payload);
  }
}
