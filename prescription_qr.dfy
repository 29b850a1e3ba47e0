/** `dnd.server.endpoints.GetPrescriptionQrEndpoint`
    (`GET /api/prescriptions/:id/qr-code`): the VietQR image links a patient
    scans to pay a prescription, one per configured bank account. The
    transfer text is "medcard <id>", the ref the bank callback parses. */
module PrescriptionQr {
  import opened Wrappers
  import opened Bytes
  import opened Database
  import opened Json
  import opened Responses
  import Text
  import Hex
  import Encoding
  import Paths
  import BankConfig
  import TransactionEndpoint

  const Suffix: string := "qr-code"
  const UrlStart: string := "https://img.vietqr.io/image/MB-"
  const UrlMiddle: string := "-qr_only.png?"

  // ---------------------------------------------------------------------------
  // URLEncoder.encode(s, UTF_8)

  /** The characters `URLEncoder` leaves as they are. */
  predicate IsUnreserved(c: char) {
    'a' <= c <= 'z' || 'A' <= c <= 'Z' || '0' <= c <= '9' || c == '.' || c == '-' || c == '*' || c == '_'
  }

  /** What an encoded string is made of. */
  predicate IsUrlSafe(c: char) {
    IsUnreserved(c) || c == '+' || c == '%'
  }

  /** `%XX` (upper-case hex) for each byte. */
  function Percent(b: Bytes): (r: string)
    ensures |r| == 3 * |b|
    ensures forall i :: 0 <= i < |r| ==> IsUrlSafe(r[i])
  {
    if b == [] then "" else "%" + Hex.Pair(b[0], true) + Percent(b[1..])
  }

  function EncodeChar(c: char): (r: string)
    ensures forall i :: 0 <= i < |r| ==> IsUrlSafe(r[i])
  {
    if IsUnreserved(c) then [c]
    else if c == ' ' then "+"
    else Percent(Encoding.Utf8Char(c))
  }

  /** `URLEncoder.encode(s, StandardCharsets.UTF_8)`: unreserved characters
      stay, a space becomes '+', anything else becomes the `%XX` escapes of
      its UTF-8 bytes. The result never holds '&', '=', '?', '#' or a space. */
  function UrlEncode(s: string): (r: string)
    ensures forall i :: 0 <= i < |r| ==> IsUrlSafe(r[i])
  {
    if s == [] then "" else EncodeChar(s[0]) + UrlEncode(s[1..])
  }

  // ---------------------------------------------------------------------------
  // The endpoint

  /** The transfer text for prescription `id`. */
  function QrContent(id: int): string {
    TransactionEndpoint.MedcardPrefix + Text.DecimalOf(id)
  }

  /** The VietQR image link for one account: the account number in the path,
      the transfer text and the account name as query parameters. */
  function QrImageUrl(account: BankConfig.BankAccount, content: string): string {
    ImagePath(account) + "&" + Param("addInfo", content) + "&" + Param("accountName", account.name)
  }

  /** The link up to its query: `MB-<number>-qr_only.png?`. */
  function ImagePath(account: BankConfig.BankAccount): string {
    UrlStart + UrlEncode(account.number) + UrlMiddle
  }

  /** One query parameter, `name=<encoded value>`. */
  function Param(name: string, value: string): string {
    name + "=" + UrlEncode(value)
  }

  /** One `qrAccounts` entry. */
  function Entry(account: BankConfig.BankAccount, content: string): Value {
    VObj(map["number" := VStr(account.number), "name" := VStr(account.name),
             "qrImageUrl" := VStr(QrImageUrl(account, content))])
  }

  /** The 200 payload: the first entry's link, number and name as the
      default, the transfer text, every entry, and the prescription. */
  function QrData(id: int, p: Prescription, content: string, entries: seq<Value>): Value
    requires |entries| > 0 && entries[0].VObj?
    requires "qrImageUrl" in entries[0].fields && "number" in entries[0].fields && "name" in entries[0].fields
  {
    VObj(map["qrImageUrl" := entries[0].fields["qrImageUrl"], "qrContent" := VStr(content),
             "accountNumber" := entries[0].fields["number"], "accountName" := entries[0].fields["name"],
             "qrAccounts" := VList(entries), "prescriptionId" := VInt(id), "prescriptionCode" := VStr(p.code)])
  }

  /** The entries for every account, in order. */
  function Entries(accounts: seq<BankConfig.BankAccount>, content: string): (r: seq<Value>)
    ensures |r| == |accounts| && forall i :: 0 <= i < |accounts| ==> r[i] == Entry(accounts[i], content)
  {
    if accounts == [] then [] else [Entry(accounts[0], content)] + Entries(accounts[1..], content)
  }

  /** The answer to a request for `path` given the `prescriptions` table and
      the configured (never empty) account list. */
  function Answer(prescriptions: map<int, Prescription>, accounts: seq<BankConfig.BankAccount>, path: string): (r: Response)
    requires |accounts| > 0
    ensures Paths.IdBefore(path, 4, Suffix).BadFormat? ==> r == BadRequest("Invalid path format")
    ensures Paths.IdBefore(path, 4, Suffix).BadNumber? ==> r == BadRequest("Invalid prescription ID")
    ensures Paths.IdBefore(path, 4, Suffix).Id? && Paths.IdBefore(path, 4, Suffix).value !in prescriptions ==>
              r == NotFound("Prescription not found")
    ensures r.statusCode == 200 <==>
              Paths.IdBefore(path, 4, Suffix).Id? && Paths.IdBefore(path, 4, Suffix).value in prescriptions
  {
    match Paths.IdBefore(path, 4, Suffix)
    case BadFormat => BadRequest("Invalid path format")
    case BadNumber(_) => BadRequest("Invalid prescription ID")
    case Id(id) =>
      if id !in prescriptions then NotFound("Prescription not found")
      else
        var content := QrContent(id);
        Responses.Success(QrData(id, prescriptions[id], content, Entries(accounts, content)))
  }

  /** The loop building `qrAccounts`: one entry per account, in order. */
  method QrAccounts(accounts: seq<BankConfig.BankAccount>, content: string) returns (entries: seq<Value>)
    ensures |entries| == |accounts|
    ensures forall i :: 0 <= i < |accounts| ==> entries[i] == Entry(accounts[i], content)
  {
    entries := [];
    for k := 0 to |accounts|
      invariant |entries| == k
      invariant forall i :: 0 <= i < k ==> entries[i] == Entry(accounts[i], content)
    {
      entries := entries + [Entry(accounts[k], content)];
    }
  }

  /** `handle(request)`: reads the `prescriptions` table and the account list,
      writes nothing. */
  method Handle(db: Db, config: BankConfig.Config, request: Request) returns (r: Response)
    requires config.Valid()
    ensures r == Answer(db.prescriptions, config.accounts, request.path)
  {
    var parsed := Paths.IdBefore(request.path, 4, Suffix);
    if parsed.BadFormat? {
      return BadRequest("Invalid path format");
    }
    if parsed.BadNumber? {
      return BadRequest("Invalid prescription ID");
    }
    var id := parsed.value;
    if id !in db.prescriptions {
      return NotFound("Prescription not found");
    }
    var content := QrContent(id);
    var accounts := config.GetAccounts();
    var entries := QrAccounts(accounts, content);
    assert entries == Entries(accounts, content);
    r := Responses.Success(QrData(id, db.prescriptions[id], content, entries));
  }

  // ---------------------------------------------------------------------------
  // Laws

  /** Text made of unreserved characters is left as it is. */
  lemma {:induction false} UrlEncodeOfUnreserved(s: string)
    requires forall i :: 0 <= i < |s| ==> IsUnreserved(s[i])
    ensures UrlEncode(s) == s
  {
    if s != [] {
      UrlEncodeOfUnreserved(s[1..]);
      assert s == [s[0]] + s[1..];
    }
  }

  /** Encoding works character by character. */
  lemma {:induction false} UrlEncodeAppend(s: string, t: string)
    ensures UrlEncode(s + t) == UrlEncode(s) + UrlEncode(t)
  {
    if s != [] {
      assert (s + t)[1..] == s[1..] + t;
      UrlEncodeAppend(s[1..], t);
    } else {
      assert s + t == t;
    }
  }

  /** A decimal is made of unreserved characters. */
  lemma DecimalIsUnreserved(n: int)
    ensures var d := Text.DecimalOf(n); forall i :: 0 <= i < |d| ==> IsUnreserved(d[i])
  {
    var d := Text.DecimalOf(n);
    forall i | 0 <= i < |d| ensures IsUnreserved(d[i]) {
      if n < 0 && i > 0 {
        assert d[i] == Text.NatDecimal(-n)[i - 1];
      }
    }
  }

  lemma EncodedPrefix()
    ensures UrlEncode(TransactionEndpoint.MedcardPrefix) == "medcard+"
  {
    UrlEncodeOfUnreserved("medcard");
    UrlEncodeAppend("medcard", " ");
    assert TransactionEndpoint.MedcardPrefix == "medcard" + " ";
  }

  /** The transfer text travels as "medcard+<id>". */
  lemma EncodedQrContent(id: int)
    ensures UrlEncode(QrContent(id)) == "medcard+" + Text.DecimalOf(id)
  {
    DecimalIsUnreserved(id);
    UrlEncodeOfUnreserved(Text.DecimalOf(id));
    EncodedPrefix();
    UrlEncodeAppend(TransactionEndpoint.MedcardPrefix, Text.DecimalOf(id));
  }

  lemma NoAmpersand(s: string)
    ensures '&' !in UrlEncode(s)
  {
    var e := UrlEncode(s);
    forall i | 0 <= i < |e| ensures e[i] != '&' {
      assert IsUrlSafe(e[i]);
    }
  }

  lemma LiteralsHaveNoAmpersand()
    ensures '&' !in UrlStart && '&' !in UrlMiddle && '&' !in "addInfo=" && '&' !in "accountName="
  {
  }

  lemma EncodedBetween(before: string, s: string, after: string)
    requires '&' !in before && '&' !in after
    ensures '&' !in before + UrlEncode(s) + after
  {
    NoAmpersand(s);
  }

  /** Three separator-free pieces joined by the separator split back into them. */
  lemma SplitThree(p1: string, p2: string, p3: string, sep: char)
    requires sep !in p1 && sep !in p2 && sep !in p3 && p3 != ""
    ensures Text.Split(p1 + [sep] + p2 + [sep] + p3, sep) == [p1, p2, p3]
  {
    var s := p1 + [sep] + p2 + [sep] + p3;
    assert s == p1 + [sep] + (p2 + [sep] + p3);
    Text.SplitAllAfterPiece(p1, sep, p2 + [sep] + p3);
    Text.SplitAllAfterPiece(p2, sep, p3);
    Text.SplitAllOfPiece(p3, sep);
    assert s[|p1|] == sep;
    var parts := Text.SplitAll(s, sep);
    assert parts == [p1, p2, p3];
    assert Text.DropTrailingEmpty(parts) == parts;
  }

  /** The encoded account number, transfer text and name cannot add or split
      query parameters: the link has exactly three '&'-separated pieces, and
      the second and third carry the encoded text and name. */
  lemma QueryCannotBeInjected(account: BankConfig.BankAccount, content: string)
    ensures Text.Split(QrImageUrl(account, content), '&')
            == [ImagePath(account), Param("addInfo", content), Param("accountName", account.name)]
  {
    var p1, p2, p3 := ImagePath(account), Param("addInfo", content), Param("accountName", account.name);
    LiteralsHaveNoAmpersand();
    EncodedBetween(UrlStart, account.number, UrlMiddle);
    EncodedBetween("addInfo=", content, "");
    EncodedBetween("accountName=", account.name, "");
    assert p2 == "addInfo=" + UrlEncode(content) + "";
    assert p3 == "accountName=" + UrlEncode(account.name) + "";
    assert p3 != "" by { assert |p3| >= 1; }
    SplitThree(p1, p2, p3, '&');
  }

  /** The transfer text names the prescription it was issued for: the bank
      callback that carries it back is linked to the same id. */
  lemma QrContentNamesPrescription(id: int)
    requires Text.LongMin <= id <= Text.LongMax
    ensures TransactionEndpoint.RefPrescriptionId(QrContent(id)) == Some(id)
  {
    TransactionEndpoint.MedcardRefRoundTrip(id);
  }

  /** `/api/prescriptions/<id>/qr-code` for a stored prescription is a 200
      whose default link, number and name are those of the first configured
      account, with one entry per account in configuration order. */
  lemma QrOfStoredPrescription(prescriptions: map<int, Prescription>, accounts: seq<BankConfig.BankAccount>, id: int)
    requires |accounts| > 0 && id in prescriptions && Text.LongMin <= id <= Text.LongMax
    ensures var r := Answer(prescriptions, accounts, Paths.Join(["api", "prescriptions", Text.DecimalOf(id), Suffix]));
            var content := QrContent(id);
            && r.statusCode == 200 && r.data.VObj?
            && r.data.fields["prescriptionId"] == VInt(id)
            && r.data.fields["qrContent"] == VStr(content)
            && r.data.fields["accountNumber"] == VStr(accounts[0].number)
            && r.data.fields["accountName"] == VStr(accounts[0].name)
            && r.data.fields["qrImageUrl"] == VStr(QrImageUrl(accounts[0], content))
            && r.data.fields["qrAccounts"].VList?
            && |r.data.fields["qrAccounts"].items| == |accounts|
            && forall i :: 0 <= i < |accounts| ==> r.data.fields["qrAccounts"].items[i] == Entry(accounts[i], content)
  {
    var segments := ["api", "prescriptions", Text.DecimalOf(id), Suffix];
    assert segments == ["api", "prescriptions"] + [Text.DecimalOf(id), Suffix];
    Paths.IdBeforeOfJoin(["api", "prescriptions"], id, Suffix, 4);
    var content := QrContent(id);
    var entries := Entries(accounts, content);
    assert Answer(prescriptions, accounts, Paths.Join(segments))
           == Responses.Success(QrData(id, prescriptions[id], content, entries));
    QrDataFields(id, prescriptions[id], content, accounts);
  }

  lemma QrDataFields(id: int, p: Prescription, content: string, accounts: seq<BankConfig.BankAccount>)
    requires |accounts| > 0
    ensures var entries := Entries(accounts, content);
            var data := QrData(id, p, content, entries);
            && data.fields["prescriptionId"] == VInt(id)
            && data.fields["qrContent"] == VStr(content)
            && data.fields["accountNumber"] == VStr(accounts[0].number)
            && data.fields["accountName"] == VStr(accounts[0].name)
            && data.fields["qrImageUrl"] == VStr(QrImageUrl(accounts[0], content))
            && data.fields["qrAccounts"] == VList(entries)
  {
    var entries := Entries(accounts, content);
    assert entries[0] == Entry(accounts[0], content);
  }
}
