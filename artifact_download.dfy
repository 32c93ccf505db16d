/** GET /api/download/:id: redirect to the signed URL upstream hands out, or relay
    the zip through the server with attachment headers. */
module ArtifactDownload {
  import opened Wrappers
  import opened Decimal
  import opened PercentEncoding
  import opened Upstream

  datatype DownloadMode = RedirectMode | ProxyMode

  /** `process.env.DOWNLOAD_MODE || 'redirect'`, then `=== 'proxy'`. */
  function ModeOf(setting: Option<string>): (mode: DownloadMode)
    ensures mode == ProxyMode <==> setting == Some("proxy")
  {
    var effective := if setting.Some? && setting.value != "" then setting.value else "redirect";
    if effective == "proxy" then ProxyMode else RedirectMode
  }

  /** How the zip request of redirect mode ended: a response with its status and
      its `Location` header, or no response at all. */
  datatype ZipReply = Responded(status: nat, location: Option<string>) | NoResponse

  datatype DownloadError = UpstreamFailed | NoRedirectLocation

  /** Lines 138-152: `validateStatus` accepts 200-399; a missing or empty
      `Location` is the error "No redirect location found". */
  function RedirectTarget(reply: ZipReply): (r: Result<string, DownloadError>)
    ensures r.Ok? <==> (reply.Responded? && 200 <= reply.status < 400 &&
                        reply.location.Some? && reply.location.value != "")
    ensures r.Ok? ==> reply.location == Some(r.value)
    ensures r == Err(NoRedirectLocation) <==> (reply.Responded? && 200 <= reply.status < 400 &&
                                               (reply.location.None? || reply.location.value == ""))
  {
    match reply
    case NoResponse => Err(UpstreamFailed)
    case Responded(status, location) =>
      if !(200 <= status < 400) then Err(UpstreamFailed)
      else if location.None? || location.value == "" then Err(NoRedirectLocation)
      else Ok(location.value)
  }

  /** Node's check on every header value (`setHeader` throws ERR_INVALID_CHAR
      otherwise): tab, printable ASCII and the octets 0x80-0xFF. */
  predicate IsHeaderChar(c: char) {
    c == '\t' || ' ' <= c <= '~' || 0x80 <= c as int <= 0xFF
  }

  predicate IsHeaderValue(s: string) {
    forall i :: 0 <= i < |s| ==> IsHeaderChar(s[i])
  }

  /** Every header of `h` passes Node's check. */
  predicate IsSendable(h: map<string, string>) {
    forall k | k in h :: IsHeaderValue(h[k])
  }

  lemma HeaderValueConcat(a: string, b: string)
    ensures IsHeaderValue(a + b) <==> IsHeaderValue(a) && IsHeaderValue(b)
  {
    if IsHeaderValue(a + b) {
      forall i | 0 <= i < |a| ensures IsHeaderChar(a[i]) { assert a[i] == (a + b)[i]; }
      forall i | 0 <= i < |b| ensures IsHeaderChar(b[i]) { assert b[i] == (a + b)[|a| + i]; }
    }
  }

  const AttachmentPrefix := "attachment; filename=\""
  const ExtendedPrefix := ".zip\"; filename*=UTF-8''"
  const ZipType := "application/zip"

  lemma PrintableIsHeaderValue(s: string)
    requires forall i :: 0 <= i < |s| ==> ' ' <= s[i] <= '~'
    ensures IsHeaderValue(s)
  {
  }

  lemma FixedTextIsHeaderValue()
    ensures IsHeaderValue(AttachmentPrefix) && IsHeaderValue(ExtendedPrefix) && IsHeaderValue(ZipType)
  {
    PrintableIsHeaderValue(AttachmentPrefix);
    PrintableIsHeaderValue(ExtendedPrefix);
    PrintableIsHeaderValue(ZipType);
  }

  /** A character that may stand unescaped inside an RFC 9110 quoted-string and
      that every recipient reads the same way: printable ASCII except `"` and `\`. */
  predicate IsQuotedTextChar(c: char) {
    ' ' <= c <= '~' && c != '"' && c != '\\'
  }

  /** The ASCII fallback name that section 4.3 of RFC 6266 recommends for the
      plain `filename` parameter: every other character becomes `_`. */
  function AsciiFallback(name: string): (r: string)
    ensures |r| == |name|
    ensures forall i :: 0 <= i < |r| ==> IsQuotedTextChar(r[i])
    ensures forall i :: 0 <= i < |r| ==> (r[i] == name[i] <==> IsQuotedTextChar(name[i]))
  {
    seq(|name|, i requires 0 <= i < |name| => if IsQuotedTextChar(name[i]) then name[i] else '_')
  }

  /** How the Content-Disposition header is built: as the source writes it (the
      raw name quoted, the extended name through encodeURIComponent), or corrected
      (an ASCII fallback quoted, the extended name as an RFC 8187 ext-value). */
  datatype Disposition = AsWritten | Corrected

  function PlainName(d: Disposition, name: string): string {
    if d == AsWritten then name else AsciiFallback(name)
  }

  function ExtendedEncoding(d: Disposition): Unreserved {
    if d == AsWritten then UriComponent else ExtValue
  }

  /** Lines 126-128. Node accepts the header exactly when the quoted part does:
      the corrected header always, the source's only for a name within Latin-1
      (and without control characters other than tab). */
  function ContentDisposition(d: Disposition, name: string): (v: string)
    ensures IsHeaderValue(v) <==> (d == Corrected || IsHeaderValue(name))
  {
    var plain := PlainName(d, name);
    var ext := Encode(ExtendedEncoding(d), name + ".zip");
    FixedTextIsHeaderValue();
    HeaderValueConcat(AttachmentPrefix, plain);
    HeaderValueConcat(AttachmentPrefix + plain, ExtendedPrefix);
    HeaderValueConcat(AttachmentPrefix + plain + ExtendedPrefix, ext);
    AttachmentPrefix + plain + ExtendedPrefix + ext
  }

  /** Both headers quote a name and then carry a percent-encoding of the UTF-8
      octets of `name.zip`. Only the corrected header's quoted name is always
      plain quoted text and its extended part always RFC 8187 value-chars. */
  lemma ContentDispositionParts(d: Disposition, name: string)
    ensures var plain := AttachmentPrefix + PlainName(d, name) + ExtendedPrefix;
      && ContentDisposition(d, name)[..|plain|] == plain
      && PercentDecode(ContentDisposition(d, name)[|plain|..]) == Some(Utf8String(name + ".zip"))
      && (d == Corrected ==> (
           && (forall i :: 0 <= i < |name| ==> IsQuotedTextChar(PlainName(d, name)[i]))
           && IsValueChars(ContentDisposition(d, name)[|plain|..])))
  {
    var plain := AttachmentPrefix + PlainName(d, name) + ExtendedPrefix;
    assert ContentDisposition(d, name)[|plain|..] == Encode(ExtendedEncoding(d), name + ".zip");
    DecodeEncode(ExtendedEncoding(d), name + ".zip");
    if d == Corrected {
      ExtValueEncodingIsValueChars(name + ".zip");
    }
  }

  /** For a name of plain quoted text without * ' ( ) the corrected header is the
      one the source writes. */
  lemma ContentDispositionAgrees(name: string)
    requires forall i :: 0 <= i < |name| ==> IsQuotedTextChar(name[i]) && !KeptOnlyByUriComponent(name[i])
    ensures ContentDisposition(Corrected, name) == ContentDisposition(AsWritten, name)
  {
    assert AsciiFallback(name) == name;
    var file := name + ".zip";
    forall i | 0 <= i < |file| ensures !KeptOnlyByUriComponent(file[i]) {
      if i >= |name| { assert file[i] == ".zip"[i - |name|]; }
    }
    EncodersAgree(file);
  }

  /** For the name "a'" the source's extended part is not an RFC 8187 ext-value. */
  lemma ContentDispositionAsWrittenInvalid()
    ensures var plain := AttachmentPrefix + "a'" + ExtendedPrefix;
      !IsValueChars(ContentDisposition(AsWritten, "a'")[|plain|..])
  {
    var plain := AttachmentPrefix + "a'" + ExtendedPrefix;
    assert ContentDisposition(AsWritten, "a'")[|plain|..] == Encode(UriComponent, "a'" + ".zip");
    assert "a'" + ".zip" == "a'.zip";
    UriComponentNotValueChars();
  }

  /** Lines 125-131: the headers set before the zip is relayed; Node accepts all
      of them exactly when it accepts Content-Disposition. */
  function ProxyHeaders(d: Disposition, name: string, size: nat): (h: map<string, string>)
    ensures "Content-Type" in h && h["Content-Type"] == ZipType
    ensures "Content-Disposition" in h && h["Content-Disposition"] == ContentDisposition(d, name)
    ensures "Content-Length" in h <==> size != 0
    ensures "Content-Length" in h ==> IsNumeral(h["Content-Length"]) && DecimalValue(h["Content-Length"]) == size
    ensures h.Keys <= {"Content-Type", "Content-Disposition", "Content-Length"}
    ensures IsSendable(h) <==> (d == Corrected || IsHeaderValue(name))
  {
    FixedTextIsHeaderValue();
    var h := map["Content-Type" := ZipType, "Content-Disposition" := ContentDisposition(d, name)];
    if size != 0 then
      DecimalRoundTrip(size);
      h["Content-Length" := NatToDecimal(size)]
    else h
  }

  /** The two fields of the artifact metadata that proxy mode reads. */
  datatype Metadata = Metadata(name: string, sizeInBytes: nat)

  /** What each upstream call the handler may issue would return. Only the calls of
      the chosen mode are looked at; in proxy mode the zip request is issued only
      after the metadata request succeeded. */
  datatype DownloadUpstream = DownloadUpstream(
    zipRedirect: ZipReply,
    metadata: Result<Metadata, UpstreamError>,
    zipStream: Result<(), UpstreamError>)

  datatype DownloadResponse =
    | Redirect(url: string)
    | Attachment(headers: map<string, string>)
    | Failure(status: nat, message: string)

  const DownloadFailed := "Failed to retrieve download link"

  /** The handler: every failure, Node's refusal of a header included, is a 500
      with the same message. `Download(AsWritten, ...)` is the source's handler. */
  function Download(d: Disposition, modeSetting: Option<string>, upstream: DownloadUpstream): (r: DownloadResponse)
    ensures r.Failure? ==> r.status == 500 && r.message == DownloadFailed
    ensures ModeOf(modeSetting) == RedirectMode ==> !r.Attachment?
    ensures ModeOf(modeSetting) == RedirectMode ==>
      (r.Redirect? <==> RedirectTarget(upstream.zipRedirect).Ok?)
    ensures r.Redirect? ==> upstream.zipRedirect.Responded? && upstream.zipRedirect.location == Some(r.url)
    ensures ModeOf(modeSetting) == ProxyMode ==> !r.Redirect?
    ensures ModeOf(modeSetting) == ProxyMode ==>
      (r.Attachment? <==> (
        && upstream.metadata.Ok? && upstream.zipStream.Ok?
        && (d == Corrected || IsHeaderValue(upstream.metadata.value.name))))
    ensures r.Attachment? ==> (
      && upstream.metadata.Ok?
      && r.headers == ProxyHeaders(d, upstream.metadata.value.name, upstream.metadata.value.sizeInBytes))
  {
    match ModeOf(modeSetting)
    case ProxyMode =>
      (match upstream.metadata
       case Err(_) => Failure(500, DownloadFailed)
       case Ok(meta) =>
         if upstream.zipStream.Err? then Failure(500, DownloadFailed)
         else
           var headers := ProxyHeaders(d, meta.name, meta.sizeInBytes);
           if IsSendable(headers) then Attachment(headers) else Failure(500, DownloadFailed))
    case RedirectMode =>
      match RedirectTarget(upstream.zipRedirect)
      case Ok(url) => Redirect(url)
      case Err(_) => Failure(500, DownloadFailed)
  }

  /** A name outside Latin-1 makes the source answer 500 where the download had
      every upstream answer it needs; the corrected header relays the zip. */
  lemma NonLatin1NameFails()
    ensures var upstream := DownloadUpstream(NoResponse, Ok(Metadata("\U{65E5}", 10)), Ok(()));
      && Download(AsWritten, Some("proxy"), upstream) == Failure(500, DownloadFailed)
      && Download(Corrected, Some("proxy"), upstream).Attachment?
  {
    assert !IsHeaderChar("\U{65E5}"[0]);
  }
}
