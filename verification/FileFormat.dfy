/** The stored file: a count byte, then 276 bytes per owner, then the payload (file/handlers.go). */
module FileFormat {
  import opened Bytes
  import opened Outcomes

  const SECRET_LEN: nat := 256
  const RECORD_LEN: nat := 276
  const MAX_OWNERS: nat := 255

  /** An owner's identifier and the session key wrapped for that owner. */
  datatype Owner = Owner(id: Identifier, secret: seq<byte>)

  datatype Document = Document(owners: seq<Owner>, data: seq<byte>)

  function Encode(owners: seq<Owner>): seq<byte> {
    if owners == [] then [] else owners[0].id + owners[0].secret + Encode(owners[1..])
  }

  /** The count is cast to a byte. */
  function Build(d: Document): seq<byte> {
    [(|d.owners| % 256) as byte] + Encode(d.owners) + d.data
  }

  function ParseRecords(bytes: seq<byte>, n: nat): Option<Document>
    decreases n
  {
    if n == 0 then Some(Document([], bytes))
    else if |bytes| < RECORD_LEN then None
    else Prepend([Owner(bytes[..20], bytes[20..RECORD_LEN])], ParseRecords(bytes[RECORD_LEN..], n - 1))
  }

  function Prepend(owners: seq<Owner>, d: Option<Document>): Option<Document> {
    match d
    case None => None
    case Some(doc) => Some(Document(owners + doc.owners, doc.data))
  }

  /** What the handlers read back; None is their error for a header that is cut short. */
  function Parse(file: seq<byte>): Option<Document> {
    if file == [] then None else ParseRecords(file[1..], file[0] as nat)
  }

  predicate FullSecrets(owners: seq<Owner>) {
    forall i :: 0 <= i < |owners| ==> |owners[i].secret| == SECRET_LEN
  }

  predicate Storable(owners: seq<Owner>) {
    |owners| <= MAX_OWNERS && FullSecrets(owners)
  }

  lemma {:induction false} ParseEncoded(owners: seq<Owner>, data: seq<byte>)
    requires FullSecrets(owners)
    ensures ParseRecords(Encode(owners) + data, |owners|) == Some(Document(owners, data))
    ensures |Encode(owners)| == RECORD_LEN * |owners|
  {
    if owners == [] {
      assert Encode(owners) + data == data;
    } else {
      var o, rest := owners[0], Encode(owners[1..]) + data;
      var bytes := Encode(owners) + data;
      assert bytes == o.id + o.secret + rest;
      assert bytes[..20] == o.id && bytes[20..RECORD_LEN] == o.secret && bytes[RECORD_LEN..] == rest;
      ParseEncoded(owners[1..], data);
      assert [o] + owners[1..] == owners;
    }
  }

  lemma {:induction false} ParsedRecords(bytes: seq<byte>, n: nat)
    requires ParseRecords(bytes, n).Some?
    ensures var d := ParseRecords(bytes, n).value;
      |d.owners| == n && FullSecrets(d.owners) && Encode(d.owners) + d.data == bytes
    decreases n
  {
    if n == 0 {
      assert Encode([]) + bytes == bytes;
    } else {
      ParsedRecords(bytes[RECORD_LEN..], n - 1);
      var d, rest := ParseRecords(bytes, n).value, ParseRecords(bytes[RECORD_LEN..], n - 1).value;
      assert d.owners[0] == Owner(bytes[..20], bytes[20..RECORD_LEN]) && d.owners[1..] == rest.owners;
      assert bytes == bytes[..20] + bytes[20..RECORD_LEN] + bytes[RECORD_LEN..];
    }
  }

  /** Where everything lies: byte 0 counts the owners, owner i's identifier and secret start at byte
      1 + 276 i, and the payload follows the last owner. */
  lemma {:induction false} EncodedAt(owners: seq<Owner>, i: nat)
    requires FullSecrets(owners) && i < |owners|
    ensures |Encode(owners)| == RECORD_LEN * |owners| && RECORD_LEN * i + RECORD_LEN <= |Encode(owners)|
    ensures Encode(owners)[RECORD_LEN * i..RECORD_LEN * i + RECORD_LEN] == owners[i].id + owners[i].secret
  {
    ParseEncoded(owners, []);
    var front, rest := owners[0].id + owners[0].secret, Encode(owners[1..]);
    assert Encode(owners) == front + rest;
    if i > 0 {
      EncodedAt(owners[1..], i - 1);
      var at := RECORD_LEN * (i - 1);
      assert (front + rest)[RECORD_LEN * i..RECORD_LEN * i + RECORD_LEN] == rest[at..at + RECORD_LEN];
    }
  }

  lemma BuildLayout(d: Document, i: nat)
    requires Storable(d.owners) && i < |d.owners|
    ensures var file, at := Build(d), 1 + RECORD_LEN * i;
      |file| == 1 + RECORD_LEN * |d.owners| + |d.data| && file[0] as nat == |d.owners|
      && at + RECORD_LEN <= |file| - |d.data|
      && file[at..at + 20] == d.owners[i].id && file[at + 20..at + RECORD_LEN] == d.owners[i].secret
      && file[|file| - |d.data|..] == d.data
  {
    EncodedAt(d.owners, i);
    var file, at := Build(d), RECORD_LEN * i;
    assert file[1 + at..1 + at + RECORD_LEN] == Encode(d.owners)[at..at + RECORD_LEN];
    var record := d.owners[i].id + d.owners[i].secret;
    assert file[1 + at..1 + at + RECORD_LEN] == record;
    assert record[..20] == d.owners[i].id && record[20..] == d.owners[i].secret;
    assert file[1 + at..1 + at + 20] == file[1 + at..1 + at + RECORD_LEN][..20];
    assert file[1 + at + 20..1 + at + RECORD_LEN] == file[1 + at..1 + at + RECORD_LEN][20..];
  }

  lemma {:induction false} RecordsReadableIff(bytes: seq<byte>, n: nat)
    ensures ParseRecords(bytes, n).Some? <==> RECORD_LEN * n <= |bytes|
    decreases n
  {
    if n > 0 && |bytes| >= RECORD_LEN {
      RecordsReadableIff(bytes[RECORD_LEN..], n - 1);
    }
  }

  /** A file can be read exactly if it has as many whole records as its first byte says. */
  lemma ReadableIff(file: seq<byte>)
    ensures Parse(file).Some? <==> file != [] && 1 + RECORD_LEN * file[0] as nat <= |file|
  {
    if file != [] {
      RecordsReadableIff(file[1..], file[0] as nat);
    }
  }

  /** Parsing a built file gives the document back exactly when the count fits and every secret is full. */
  lemma ParseBuildIff(d: Document)
    ensures Parse(Build(d)) == Some(d) <==> Storable(d.owners)
    ensures Storable(d.owners) ==> |Build(d)| == 1 + RECORD_LEN * |d.owners| + |d.data|
  {
    var file := Build(d);
    assert file[1..] == Encode(d.owners) + d.data;
    if Storable(d.owners) {
      ParseEncoded(d.owners, d.data);
    }
    if Parse(file) == Some(d) {
      ParsedRecords(file[1..], file[0] as nat);
    }
  }

  /** Rebuilding any file that parses gives its bytes back, and the parsed owners can be stored. */
  lemma BuildParsed(file: seq<byte>)
    requires Parse(file).Some?
    ensures Build(Parse(file).value) == file
    ensures Storable(Parse(file).value.owners) && |Parse(file).value.owners| == file[0] as nat
  {
    ParsedRecords(file[1..], file[0] as nat);
    assert file == [file[0]] + file[1..];
  }

  /** At 256 owners the count byte wraps to zero: the file parses, but nobody owns it any more. */
  lemma FullHouseLosesOwners(d: Document)
    requires |d.owners| == 256
    ensures Parse(Build(d)) == Some(Document([], Encode(d.owners) + d.data))
  {
    assert Build(d)[1..] == Encode(d.owners) + d.data;
  }

  // ---- Owner search ----

  /** The secret of the last record under an identifier: the loop does not stop at the first match. */
  function LastSecret(owners: seq<Owner>, id: Identifier): Option<seq<byte>> {
    if owners == [] then None
    else
      var last := owners[|owners| - 1];
      if last.id == id then Some(last.secret) else LastSecret(owners[..|owners| - 1], id)
  }

  predicate IsOwner(owners: seq<Owner>, id: Identifier) {
    exists i :: 0 <= i < |owners| && owners[i].id == id
  }

  /** It is found for exactly the owners, and it is the most recently added one. */
  lemma {:induction false} LastSecretIsNewest(owners: seq<Owner>, id: Identifier)
    ensures LastSecret(owners, id).Some? <==> IsOwner(owners, id)
    ensures LastSecret(owners, id).Some? ==>
      exists i :: 0 <= i < |owners| && owners[i] == Owner(id, LastSecret(owners, id).value)
                  && forall j :: i < j < |owners| ==> owners[j].id != id
  {
    if owners != [] {
      LastSecretIsNewest(owners[..|owners| - 1], id);
      assert owners[|owners| - 1].id == id ==> owners[|owners| - 1] == Owner(id, LastSecret(owners, id).value);
    }
  }
}
