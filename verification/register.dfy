/**
  The first-access registration page (`src/pages/register/index.tsx`): the photo
  picker's size gate and the payload that submitting the form sends to the
  registration service. `Number(...)` on the currency strings is floating point
  and is not modelled: an amount is the text handed to it, or the literal 0.
 */
module Register {
  import opened Wrappers
  import opened Feedback
  import opened Text

  /** One entry of the list the base64 file picker reports. `byteSize` is the
      browser `File`'s `size`; `size` is the picker's own human-readable text. */
  datatype FileProps = FileProps(name: string, fileType: string, size: string, base64: string, byteSize: nat)

  /** The largest photo, in bytes, the page accepts. */
  const MaxPhotoBytes: nat := 3000000

  const PhotoTooLarge := "O tamanho da imagem é muito grande."

  /** The stored file (`None` is the initial empty object) and the toasts raised. */
  datatype FileGate = FileGate(stored: Option<FileProps>, toasts: seq<Toast>)

  /** `handleFile`. The picker always reports at least one file; the page reads
      `files[0]` unguarded. */
  function HandleFile(stored: Option<FileProps>, files: seq<FileProps>): (g: FileGate)
    requires |files| > 0
    ensures files[0].byteSize > MaxPhotoBytes <==> |g.toasts| > 0
    ensures files[0].byteSize > MaxPhotoBytes ==>
              g.stored == stored && g.toasts == [Toast(PhotoTooLarge, Warning)]
    ensures files[0].byteSize <= MaxPhotoBytes ==> g.stored == Some(files[0])
  {
    if files[0].byteSize > MaxPhotoBytes then FileGate(stored, [Toast(PhotoTooLarge, Warning)])
    else FileGate(Some(files[0]), [])
  }

  /** Only the first picked file is ever looked at. */
  lemma HandleFileReadsFirstOnly(stored: Option<FileProps>, files: seq<FileProps>, more: seq<FileProps>)
    requires |files| > 0
    ensures HandleFile(stored, files + more) == HandleFile(stored, files[..1])
  {
    assert (files + more)[0] == files[0];
  }

  /** A photo of exactly the limit is kept; one byte more is refused. */
  lemma HandleFileBoundary(stored: Option<FileProps>, f: FileProps)
    ensures f.byteSize == MaxPhotoBytes ==> HandleFile(stored, [f]).stored == Some(f)
    ensures f.byteSize == MaxPhotoBytes + 1 ==> HandleFile(stored, [f]).stored == stored
  {
  }

  /** `salary.replace("R$", "").replace(".", "").replace(",", ".")`: the masked
      Brazilian-real text with its first currency sign and first thousands
      separator removed and its first decimal comma turned into a point. */
  function NormaliseAmount(masked: string): string
  {
    ReplaceFirst(ReplaceFirst(ReplaceFirst(masked, "R$", ""), ".", ""), ",", ".")
  }

  /** Text with no currency sign, point or comma is handed on as it is. */
  lemma NormaliseKeepsBareNumber(text: string)
    requires !Contains(text, "R$") && '.' !in text && ',' !in text
    ensures NormaliseAmount(text) == text
  {
    ReplaceFirstWithoutOccurrence(text, "R$", "");
    ContainsChar(text, '.');
    ReplaceFirstWithoutOccurrence(text, ".", "");
    ContainsChar(text, ',');
    ReplaceFirstWithoutOccurrence(text, ",", ".");
  }

  /** A masked amount of a thousand or more: sign, integer digits up to the first
      separator, the rest of the integer part, comma, cents. Only the first
      separator goes, so later ones in `rest` stay in the result. */
  lemma NormaliseSeparatedAmount(lead: string, rest: string, cents: string)
    requires '.' !in lead && ',' !in lead && ',' !in rest
    ensures NormaliseAmount("R$" + lead + "." + rest + "," + cents) == lead + rest + "." + cents
  {
    var masked := "R$" + lead + "." + rest + "," + cents;
    var tail := lead + ['.'] + (rest + [','] + cents);
    var noSign := ReplaceFirst(masked, "R$", "");
    assert noSign == tail by {
      assert masked == "R$" + tail;
      ReplaceFirstLeading("R$", tail, "");
    }
    var noSeparator := ReplaceFirst(noSign, ".", "");
    assert noSeparator == (lead + rest) + [','] + cents by {
      ReplaceFirstChar(lead, '.', rest + [','] + cents, "");
    }
    assert ReplaceFirst(noSeparator, ",", ".") == lead + rest + "." + cents by {
      assert ',' !in lead + rest;
      ReplaceFirstChar(lead + rest, ',', cents, ".");
    }
  }

  /** A masked amount below a thousand has no separator: only the sign goes and
      the comma becomes the decimal point. */
  lemma NormalisePlainAmount(units: string, cents: string)
    requires '.' !in units && ',' !in units && '.' !in cents
    ensures NormaliseAmount("R$" + units + "," + cents) == units + "." + cents
  {
    var masked := "R$" + units + "," + cents;
    var tail := units + [','] + cents;
    var noSign := ReplaceFirst(masked, "R$", "");
    assert noSign == tail by {
      assert masked == "R$" + tail;
      ReplaceFirstLeading("R$", tail, "");
    }
    var noSeparator := ReplaceFirst(noSign, ".", "");
    assert noSeparator == tail by {
      assert '.' !in tail;
      ContainsChar(tail, '.');
      ReplaceFirstWithoutOccurrence(tail, ".", "");
    }
    assert ReplaceFirst(noSeparator, ",", ".") == units + "." + cents by {
      ReplaceFirstChar(units, ',', cents, ".");
    }
  }

  /** One million reais keeps its second separator, so the text handed to
      `Number` holds two points. */
  lemma SecondSeparatorSurvives(masked: string)
    requires masked == "R$ 1.000.000,00"
    ensures NormaliseAmount(masked) == " 1000.000.00"
  {
    assert masked == "R$" + " 1" + "." + "000.000" + "," + "00";
    NormaliseSeparatedAmount(" 1", "000.000", "00");
  }

  /** The argument of `Number(...)`, or the literal `0`. */
  datatype Amount = ZeroAmount | TextAmount(text: string)

  /** `data.others ? Number(...) : 0`: an absent or empty field sends 0. */
  function OthersAmount(others: Option<string>): (a: Amount)
    ensures a.ZeroAmount? <==> others.None? || others.value == ""
    ensures a.TextAmount? ==> a.text == NormaliseAmount(others.value)
  {
    if others.None? || others.value == "" then ZeroAmount
    else TextAmount(NormaliseAmount(others.value))
  }

  const JpegPrefix := "data:image/jpeg;base64,"
  const PngPrefix := "data:image/png;base64,"

  /** The characters of a base64 body. */
  predicate IsBase64Char(c: char)
  {
    ('A' <= c <= 'Z') || ('a' <= c <= 'z') || ('0' <= c <= '9') || c == '+' || c == '/' || c == '='
  }

  predicate IsBase64Body(s: string)
  {
    forall i :: 0 <= i < |s| ==> IsBase64Char(s[i])
  }

  /** The `photo` field: "" for an absent or empty data URL; otherwise the first
      JPEG prefix and then the first PNG prefix are removed. */
  function PhotoPayload(base64: Option<string>): (r: string)
    ensures base64.None? || base64.value == "" ==> r == ""
  {
    if base64.None? || base64.value == "" then ""
    else ReplaceFirst(ReplaceFirst(base64.value, JpegPrefix, ""), PngPrefix, "")
  }

  /** Text carrying neither prefix passes through unchanged. */
  lemma PhotoWithoutPrefixUnchanged(text: string)
    requires !Contains(text, JpegPrefix) && !Contains(text, PngPrefix)
    ensures PhotoPayload(Some(text)) == text
  {
    ReplaceFirstWithoutOccurrence(text, JpegPrefix, "");
    ReplaceFirstWithoutOccurrence(text, PngPrefix, "");
  }

  lemma Base64HasNoColon(p: string)
    requires IsBase64Body(p)
    ensures ':' !in p
  {
  }

  /** A JPEG data URL is sent as its bare base64 body. */
  lemma PhotoStripsJpegPrefix(body: string)
    requires IsBase64Body(body)
    ensures PhotoPayload(Some(JpegPrefix + body)) == body
  {
    ReplaceFirstLeading(JpegPrefix, body, "");
    assert "" + body == body;
    Base64HasNoColon(body);
    assert PngPrefix[4] == ':';
    AbsentCharRulesOut(body, PngPrefix, 4);
    ReplaceFirstWithoutOccurrence(body, PngPrefix, "");
  }

  /** The JPEG pattern's ':' can only line up with the PNG prefix's own ':', and
      there the two prefixes already differ. */
  lemma NoJpegPatternAt(body: string, i: nat)
    requires ':' !in body
    ensures !OccursAt(PngPrefix + body, JpegPrefix, i)
  {
    var s := PngPrefix + body;
    if i + |JpegPrefix| <= |s| {
      assert s[i..i + |JpegPrefix|][4] == s[i + 4];
      if i > 0 {
        assert ':' !in PngPrefix[5..];
        assert s[i + 4] == (PngPrefix[5..] + body)[i - 1];
      } else {
        assert s[i..i + |JpegPrefix|][11] == 'p';
      }
    }
  }

  /** A PNG data URL is sent as its bare base64 body: the JPEG pattern cannot
      match anywhere in it, so the first replacement changes nothing. */
  lemma PhotoStripsPngPrefix(body: string)
    requires IsBase64Body(body)
    ensures PhotoPayload(Some(PngPrefix + body)) == body
  {
    Base64HasNoColon(body);
    forall i: nat
      ensures !OccursAt(PngPrefix + body, JpegPrefix, i)
    {
      NoJpegPatternAt(body, i);
    }
    ReplaceFirstWithoutOccurrence(PngPrefix + body, JpegPrefix, "");
    ReplaceFirstLeading(PngPrefix, body, "");
    assert "" + body == body;
  }

  /** The form as react-hook-form hands it over; `others` is optional. */
  datatype RegisterForm = RegisterForm(cell: string, salary: string, others: Option<string>)

  /** The register request; `userId` is the session user's id, when there is one. */
  datatype RegisterPayload = RegisterPayload(
    userId: Option<int>, cell: string, others: Amount, salary: Amount, photo: string)

  /** The payload `handleForm` builds from the session, the form and the stored file. */
  function BuildPayload(sessionUser: Option<int>, form: RegisterForm, stored: Option<FileProps>): (p: RegisterPayload)
    ensures p.userId == sessionUser
    ensures AllDigits(p.cell) && IsSubsequence(p.cell, form.cell)
    ensures forall c :: IsDigit(c) ==> multiset(p.cell)[c] == multiset(form.cell)[c]
    ensures p.salary == TextAmount(NormaliseAmount(form.salary))
    ensures p.others == OthersAmount(form.others)
    ensures stored.None? ==> p.photo == ""
    ensures stored.Some? ==> p.photo == PhotoPayload(Some(stored.value.base64))
  {
    RegisterPayload(
      sessionUser,
      KeepDigits(form.cell),
      OthersAmount(form.others),
      TextAmount(NormaliseAmount(form.salary)),
      PhotoPayload(if stored.None? then None else Some(stored.value.base64)))
  }

  /** A stored JPEG or PNG data URL reaches the register request as its bare
      base64 body. */
  lemma PayloadSendsBarePhoto(sessionUser: Option<int>, form: RegisterForm, stored: Option<FileProps>, body: string)
    requires stored.Some? && IsBase64Body(body)
    requires stored.value.base64 == JpegPrefix + body || stored.value.base64 == PngPrefix + body
    ensures BuildPayload(sessionUser, form, stored).photo == body
  {
    if stored.value.base64 == JpegPrefix + body {
      PhotoStripsJpegPrefix(body);
    } else {
      PhotoStripsPngPrefix(body);
    }
  }

  /** What one submission does: the request sent, the toasts and the route pushed. */
  datatype SubmitOutcome = SubmitOutcome(request: RegisterPayload, toasts: seq<Toast>, navigateTo: Option<string>)

  /** `handleForm`: status 200 toasts the service's message and goes home; a throw
      toasts the error; any other status does neither. */
  function Submit(sessionUser: Option<int>, form: RegisterForm, stored: Option<FileProps>, reply: Reply): (o: SubmitOutcome)
    ensures o.request == BuildPayload(sessionUser, form, stored)
    ensures o.navigateTo.Some? <==> IsOk(reply)
    ensures IsOk(reply) ==> o.toasts == [Toast(reply.message, Success)] && o.navigateTo == Some("/")
    ensures reply.Threw? ==> o.toasts == [Toast(reply.message, Error)]
    ensures reply.Responded? && reply.status != 200 ==> o.toasts == []
  {
    var request := BuildPayload(sessionUser, form, stored);
    match reply
    case Threw(message) => SubmitOutcome(request, [Toast(message, Error)], None)
    case Responded(status, message) =>
      if status == 200 then SubmitOutcome(request, [Toast(message, Success)], Some("/"))
      else SubmitOutcome(request, [], None)
  }
}
