/** Values of `Document` and their wire form. It has no submessages, so nothing
    in it is ever cut short. */
module DocumentCodec {
  import opened Prelude
  import opened WireFormat
  import opened MessageEngine
  import opened TotalLimit
  import Varint

  datatype DocumentMsg = DocumentMsg(
    serialNumber: Option<uint32>, data: Option<Bytes>, userName: Option<Bytes>, unknown: seq<UnknownField>)

  const EMPTY_DOCUMENT := DocumentMsg(None, None, None, [])

  /** The cases of `Document::MergePartialFromCodedStream`. */
  function DocumentStep(m: DocumentMsg, f: UnknownField): Option<DocumentMsg>
  {
    match f
    case VarintField(1, v) => Some(m.(serialNumber := Some(v % TWO_32)))
    case LengthDelimited(2, d) => Some(m.(data := Some(d)))
    case LengthDelimited(3, d) => Some(m.(userName := Some(d)))
    case _ => Some(m.(unknown := m.unknown + [f]))
  }

  function ParseDocument(depth: nat, m: DocumentMsg, s: Bytes): Option<DocumentMsg>
  {
    Run(DocumentStep, {}, depth, m, s)
  }

  /** The case of `user_name` ends in `ExpectAtEnd`. */
  function DocumentCloses(f: UnknownField, short: bool): bool
  {
    f.LengthDelimited? && f.number == 3
  }

  /** The parse up to an end of the given kind. */
  function ParseDocumentTo(depth: nat, m: DocumentMsg, s: Bytes, end: End): Outcome<DocumentMsg>
  {
    RunTo(DocumentStep, DocumentCloses, {}, depth, m, s, end)
  }

  /** `ParseFromArray` but for the required fields. */
  function DocumentFromArray(depth: nat, s: Bytes): Outcome<DocumentMsg>
  {
    ParseDocumentTo(depth, EMPTY_DOCUMENT, s, EndOf(s))
  }

  function DocumentOnward(depth: nat, m: DocumentMsg, rest: Bytes, end: End, closed: bool): Outcome<DocumentMsg>
  {
    Onward(DocumentStep, DocumentCloses, {}, depth, m, rest, end, closed)
  }

  // What a turn of the loop does for each way a field can be read.

  lemma DocumentNumberTurn(depth: nat, m: DocumentMsg, s: Bytes, end: End, body: Bytes)
    requires Varint.ReadVarint32(s) == Got(MakeTag(1, WIRETYPE_VARINT), body)
    ensures match Varint.ReadVarint32(body)
            case Fail => ParseDocumentTo(depth, m, s, end) == Rejected
            case Got(v, rest) =>
              ParseDocumentTo(depth, m, s, end) == DocumentOnward(depth, m.(serialNumber := Some(v)), rest, end, false)
  {
    VarintNext({}, depth, s, 1, body);
    var v := if Varint.ReadVarint32(body).Got? then Varint.ReadVarint32(body).value else 0;
    FieldTurn(DocumentStep, DocumentCloses, {}, depth, m, s, end, m.(serialNumber := Some(v)));
  }

  function SetBytes(m: DocumentMsg, n: nat, v: Bytes): DocumentMsg
    requires n in {2, 3}
  {
    if n == 2 then m.(data := Some(v)) else m.(userName := Some(v))
  }

  /** `ReadBytes` and `ReadString`: both are length-delimited, as the skipper's are. */
  lemma DocumentBytesTurn(depth: nat, m: DocumentMsg, s: Bytes, end: End, n: FieldNumber, body: Bytes)
    requires Varint.ReadVarint32(s) == Got(MakeTag(n, WIRETYPE_LENGTH_DELIMITED), body) && n in {2, 3}
    ensures match ReadString(body)
            case Fail => ParseDocumentTo(depth, m, s, end) == Rejected
            case Got(v, rest) =>
              ParseDocumentTo(depth, m, s, end) == DocumentOnward(depth, SetBytes(m, n, v), rest, end, n == 3)
  {
    StringNext({}, depth, s, n, body);
    FieldTurn(DocumentStep, DocumentCloses, {}, depth, m, s, end,
              if ReadString(body).Got? then SetBytes(m, n, ReadString(body).value) else m);
    if n == 2 {} else {}
  }

  function DocumentAddUnknown(m: DocumentMsg, f: UnknownField): DocumentMsg
  {
    m.(unknown := m.unknown + [f])
  }

  lemma DocumentSkipTurn(depth: nat, m: DocumentMsg, s: Bytes, end: End, tag: uint32, body: Bytes)
    requires Varint.ReadVarint32(s) == Got(tag, body) && tag !in {0, 8, 18, 26} && TagWireType(tag) != WIRETYPE_END_GROUP
    ensures match SkipField(depth, tag, body)
            case Fail => ParseDocumentTo(depth, m, s, end) == Rejected
            case Got(f, rest) =>
              ParseDocumentTo(depth, m, s, end) == DocumentOnward(depth, DocumentAddUnknown(m, f), rest, end, false)
  {
    SkippedNext({}, depth, s, tag, body);
    var skipped := SkipField(depth, tag, body);
    FieldTurn(DocumentStep, DocumentCloses, {}, depth, m, s, end,
              if skipped.Got? then DocumentAddUnknown(m, skipped.value) else m);
  }

  function MergeDocument(a: DocumentMsg, b: DocumentMsg): DocumentMsg
  {
    DocumentMsg(Later(a.serialNumber, b.serialNumber), Later(a.data, b.data), Later(a.userName, b.userName),
                a.unknown + b.unknown)
  }

  function DocumentFields(m: DocumentMsg): seq<UnknownField>
  {
    UInt32Field(1, m.serialNumber) + BytesField(2, m.data) + BytesField(3, m.userName)
  }

  function SerializeDocument(m: DocumentMsg): Bytes
  {
    EncodeFields(DocumentFields(m) + m.unknown)
  }

  lemma DocumentSizes(m: DocumentMsg)
    ensures EncodeFields(DocumentFields(m))
         == EncodeFields(UInt32Field(1, m.serialNumber)) + EncodeFields(BytesField(2, m.data))
          + EncodeFields(BytesField(3, m.userName))
    ensures EncodeFields(UInt32Field(1, m.serialNumber) + BytesField(2, m.data))
         == EncodeFields(UInt32Field(1, m.serialNumber)) + EncodeFields(BytesField(2, m.data))
    ensures |SerializeDocument(m)| == |EncodeFields(DocumentFields(m))| + |EncodeFields(m.unknown)|
  {
    EncodeFieldsConcat(DocumentFields(m), m.unknown);
    EncodeFieldsConcat(UInt32Field(1, m.serialNumber) + BytesField(2, m.data), BytesField(3, m.userName));
    EncodeFieldsConcat(UInt32Field(1, m.serialNumber), BytesField(2, m.data));
  }

  predicate DocumentInitialized(m: DocumentMsg)
  {
    m.serialNumber.Some? && m.data.Some?
  }

  /** A field the parser files under the unknown ones, unchanged. */
  predicate DocumentKeeps(depth: nat, f: UnknownField)
  {
    Wire(depth, f) && !(f.VarintField? && f.number == 1) && !(f.LengthDelimited? && f.number in {2, 3})
  }

  predicate DocumentCanonical(depth: nat, m: DocumentMsg)
  {
    && (forall f | f in m.unknown :: DocumentKeeps(depth, f))
    && (m.data.Some? ==> |m.data.value| < TWO_31)
    && (m.userName.Some? ==> |m.userName.value| < TWO_31)
  }

  lemma DocumentParseMerges(depth: nat, a: DocumentMsg, b: DocumentMsg, s: Bytes)
    ensures ParseDocument(depth, MergeDocument(a, b), s)
         == match ParseDocument(depth, b, s) case None => None case Some(b') => Some(MergeDocument(a, b'))
  {
    forall a, b, f
      ensures DocumentStep(MergeDocument(a, b), f)
           == match DocumentStep(b, f) case None => None case Some(b') => Some(MergeDocument(a, b'))
    {
      assert a.unknown + (b.unknown + [f]) == a.unknown + b.unknown + [f];
    }
    RunMerge(DocumentStep, MergeDocument, {}, depth, a, b, s);
  }

  lemma DocumentParseCanonical(depth: nat, m: DocumentMsg, s: Bytes)
    requires DocumentCanonical(depth, m) && ParseDocument(depth, m, s).Some?
    ensures DocumentCanonical(depth, ParseDocument(depth, m, s).value)
  {
    RunKeeps(DocumentStep, m => DocumentCanonical(depth, m), {}, depth, m, s);
  }

  lemma {:induction false} DocumentFoldUnknown(depth: nat, m: DocumentMsg, fs: seq<UnknownField>)
    requires forall f | f in fs :: DocumentKeeps(depth, f)
    ensures Fold(DocumentStep, m, fs) == Some(m.(unknown := m.unknown + fs))
    decreases fs
  {
    if fs == [] {
      assert m.unknown + fs == m.unknown;
    } else {
      assert fs[0] in fs;
      var m' := m.(unknown := m.unknown + [fs[0]]);
      assert DocumentStep(m, fs[0]) == Some(m');
      DocumentFoldUnknown(depth, m', fs[1..]);
      assert m.unknown + fs == m.unknown + [fs[0]] + fs[1..];
    }
  }

  lemma DocumentFoldKnown(m: DocumentMsg)
    ensures Fold(DocumentStep, EMPTY_DOCUMENT, DocumentFields(m)) == Some(m.(unknown := []))
  {
    var first, second := UInt32Field(1, m.serialNumber), BytesField(2, m.data);
    FoldConcat(DocumentStep, EMPTY_DOCUMENT, first + second, BytesField(3, m.userName));
    FoldConcat(DocumentStep, EMPTY_DOCUMENT, first, second);
  }

  lemma DocumentWritable(depth: nat, m: DocumentMsg)
    requires DocumentCanonical(depth, m)
    ensures forall f | f in DocumentFields(m) + m.unknown :: Writable({}, depth, f)
  {
  }

  lemma DocumentRoundTrip(depth: nat, m: DocumentMsg)
    requires DocumentCanonical(depth, m)
    ensures ParseDocument(depth, EMPTY_DOCUMENT, SerializeDocument(m)) == Some(m)
  {
    DocumentWritable(depth, m);
    RunEncoded(DocumentStep, {}, depth, EMPTY_DOCUMENT, DocumentFields(m) + m.unknown);
    FoldConcat(DocumentStep, EMPTY_DOCUMENT, DocumentFields(m), m.unknown);
    DocumentFoldKnown(m);
    DocumentFoldUnknown(depth, m.(unknown := []), m.unknown);
    assert [] + m.unknown == m.unknown;
  }
}
