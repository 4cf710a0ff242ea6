/** `SerializeWithCachedSizes` of each message: the serializer that writes to a
    stream. It writes the bytes that the array serializer writes, whichever of
    the two each nested message happens to go through. */
module StreamSerializers {
  import opened Prelude
  import opened WireFormat
  import opened CodedTarget
  import opened CodedOutput
  import opened PointCodec
  import opened OperationDataCodec
  import opened OperationDataMembers
  import opened OperationDataWriting
  import opened OperationCodec
  import opened OperationsCodec
  import opened DocumentCodec
  import opened PointMessage
  import opened PointTable
  import opened OperationDataMessage
  import opened OperationMessage
  import opened OperationsMessage
  import opened DocumentMessage
  import OperationList

  method SerializePointToStream(p: Point, output: CodedOutputStream)
    requires |SerializePoint(p.View())| < TWO_31
    modifies output
    ensures output.data == old(output.data) + SerializePoint(p.View())
  {
    ghost var m, before := p.View(), output.data;
    ghost var f1, f2 := Int32Field(1, m.x), Int32Field(2, m.y);
    CoordinateSizes(m);
    output.WriteVarintIfSet(1, p.x.has, SignExtend(p.x.value), before, []);
    assert [] + f1 == f1;
    output.WriteVarintIfSet(2, p.y.has, SignExtend(p.y.value), before, f1);
    output.WriteUnknown(p.unknown, before, f1 + f2);
  }

  method SerializeDocumentToStream(d: Document, output: CodedOutputStream)
    requires |SerializeDocument(d.View())| < TWO_31
    modifies output
    ensures output.data == old(output.data) + SerializeDocument(d.View())
  {
    ghost var m, before := d.View(), output.data;
    ghost var f1, f2, f3 := UInt32Field(1, m.serialNumber), BytesField(2, m.data), BytesField(3, m.userName);
    DocumentSizes(m);
    StringsFit(m);
    output.WriteVarintIfSet(1, d.serialNumber.has, d.serialNumber.value, before, []);
    assert [] + f1 == f1;
    output.WriteBytesIfSet(2, d.data.has, d.data.value, before, f1);
    output.WriteBytesIfSet(3, d.userName.has, d.userName.value, before, f1 + f2);
    output.WriteUnknown(d.unknown, before, f1 + f2 + f3);
  }

  /** The bytes of a point, written into a block that has room for them. */
  method PointBlock(p: Point) returns (block: Bytes)
    requires p.cachedSize == |SerializePoint(p.View())| < TWO_31
    ensures block == SerializePoint(p.View())
  {
    var target := new byte[p.cachedSize];
    SpliceAll(target[..], SerializePoint(p.View()));
    var end := p.SerializeWithCachedSizesToArray(target, 0);
    block := target[..];
  }

  /** `WriteMessageMaybeToArray` for point `n`: its cached size as the length, then
      straight into the block if that has room, else to the stream. */
  method WritePointField(n: nat, p: Point, output: CodedOutputStream, ghost before: Bytes, ghost fs: seq<UnknownField>)
    requires n <= 15 && p.cachedSize == |SerializePoint(p.View())| < TWO_31 && Put(output.data, before, fs)
    modifies output
    ensures Put(output.data, before, fs + PointFieldAt(n, Some(p.View())))
  {
    PutMessage(output.data, before, fs, n, SerializePoint(p.View()));
    output.WriteLength(n, p.cachedSize);
    var direct := output.HasDirectBuffer(p.cachedSize);
    if direct {
      var block := PointBlock(p);
      output.WriteRaw(block);
    } else {
      SerializePointToStream(p, output);
    }
  }

  method WritePoint(points: Points, n: nat, output: CodedOutputStream, ghost before: Bytes, ghost fs: seq<UnknownField>)
    requires points.Valid() && output !in points.Repr && n <= 15 && Put(output.data, before, fs)
    requires n in points.has ==> |SerializePoint(points.shown[n])| < TWO_31
    requires n in points.has ==> points.CachedAt(n) == |SerializePoint(points.shown[n])|
    modifies output
    ensures Put(output.data, before, fs + PointFieldAt(n, PointShown(points.shown, n)))
  {
    if n !in points.has {
      assert fs + [] == fs;
      return;
    }
    assert Points.Shows(points.slots[n], points.shown[n]);
    WritePointField(n, points.slots[n], output, before, fs);
  }

  // The fields of `OperationData` by number: those up to `n` have been written.

  ghost predicate PutTo(m: OperationDataMsg, n: nat, now: Bytes, before: Bytes)
  {
    Put(now, before, DataFieldsTo(m, n))
  }

  method PutVarint(ghost m: OperationDataMsg, n: nat, has: bool, value: uint64,
                  output: CodedOutputStream, ghost before: Bytes)
    requires 1 <= n <= LAST_DATA_FIELD && PutTo(m, n - 1, output.data, before)
    requires DataFieldAt(m, n) == if has then [VarintField(n, value)] else []
    modifies output
    ensures PutTo(m, n, output.data, before)
  {
    output.WriteVarintIfSet(n, has, value, before, DataFieldsTo(m, n - 1));
  }

  method PutFloat(ghost m: OperationDataMsg, n: nat, has: bool, value: uint32, output: CodedOutputStream, ghost before: Bytes)
    requires 1 <= n <= LAST_DATA_FIELD && PutTo(m, n - 1, output.data, before)
    requires DataFieldAt(m, n) == FloatField(n, Opt(has, value))
    modifies output
    ensures PutTo(m, n, output.data, before)
  {
    output.WriteFloatIfSet(n, has, value, before, DataFieldsTo(m, n - 1));
  }

  method PutBool(ghost m: OperationDataMsg, n: nat, has: bool, value: bool, output: CodedOutputStream, ghost before: Bytes)
    requires 1 <= n <= LAST_DATA_FIELD && PutTo(m, n - 1, output.data, before)
    requires DataFieldAt(m, n) == BoolField(n, Opt(has, value))
    modifies output
    ensures PutTo(m, n, output.data, before)
  {
    output.WriteVarintIfSet(n, has, if value then 1 else 0, before, DataFieldsTo(m, n - 1));
  }

  method PutOutline(ghost m: OperationDataMsg, f: Members, output: CodedOutputStream, ghost before: Bytes)
    requires HasScalars(m, f) && PutTo(m, 0, output.data, before)
    modifies output
    ensures PutTo(m, 3, output.data, before)
  {
    PutVarint(m, 1, f.dataType.has, SignExtend(f.dataType.value), output, before);
    PutVarint(m, 2, f.thinkness.has, SignExtend(f.thinkness.value), output, before);
    PutVarint(m, 3, f.color.has, SignExtend(f.color.value), output, before);
  }

  method PutEllipse(ghost m: OperationDataMsg, f: Members, output: CodedOutputStream, ghost before: Bytes)
    requires HasScalars(m, f) && PutTo(m, 6, output.data, before)
    modifies output
    ensures PutTo(m, 9, output.data, before)
  {
    PutFloat(m, 7, f.angle.has, f.angle.value, output, before);
    PutFloat(m, 8, f.a.has, f.a.value, output, before);
    PutFloat(m, 9, f.b.has, f.b.value, output, before);
  }

  method PutFill(ghost m: OperationDataMsg, f: Members, output: CodedOutputStream, ghost before: Bytes)
    requires HasScalars(m, f) && PutTo(m, 12, output.data, before)
    modifies output
    ensures PutTo(m, 15, output.data, before)
  {
    FillFields(m, f);
    PutBool(m, 13, f.fill.has, f.fill.value, output, before);
    PutFloat(m, 14, f.alpha.has, f.alpha.value, output, before);
    PutBool(m, 15, f.isStart.has, f.isStart.value, output, before);
  }

  method PutPoint(d: OperationData, n: nat, output: CodedOutputStream, ghost before: Bytes)
    requires d.Cached() && output !in d.Repr && |SerializeData(d.View())| < TWO_31
    requires n in DATA_SUBS && n <= LAST_DATA_FIELD && PutTo(d.View(), n - 1, output.data, before)
    modifies output
    ensures PutTo(d.View(), n, output.data, before)
  {
    DataPointFieldAt(d.View(), n);
    ShowsPoint(d.members, d.points.shown, d.unknown, n);
    PointsFit(d.members, d.points.shown, d.unknown);
    WritePoint(d.points, n, output, before, DataFieldsTo(d.View(), n - 1));
  }

  /** The points numbered `n` to `n + 2`. */
  method PutPoints(d: OperationData, n: nat, output: CodedOutputStream, ghost before: Bytes)
    requires d.Cached() && output !in d.Repr && |SerializeData(d.View())| < TWO_31
    requires n in {4, 10} && PutTo(d.View(), n - 1, output.data, before)
    modifies output
    ensures PutTo(d.View(), n + 2, output.data, before)
  {
    PutPoint(d, n, output, before);
    PutPoint(d, n + 1, output, before);
    PutPoint(d, n + 2, output, before);
  }

  method PutKnown(d: OperationData, output: CodedOutputStream, ghost before: Bytes)
    requires d.Cached() && output !in d.Repr && |SerializeData(d.View())| < TWO_31
    requires PutTo(d.View(), 0, output.data, before)
    modifies output
    ensures PutTo(d.View(), LAST_DATA_FIELD, output.data, before)
  {
    ghost var m := d.View();
    PutOutline(m, d.members, output, before);
    PutPoints(d, 4, output, before);
    PutEllipse(m, d.members, output, before);
    PutPoints(d, 10, output, before);
    PutFill(m, d.members, output, before);
  }

  method SerializeDataToStream(d: OperationData, output: CodedOutputStream)
    requires d.Cached() && output !in d.Repr && |SerializeData(d.View())| < TWO_31
    modifies output
    ensures output.data == old(output.data) + SerializeData(d.View())
  {
    DataRoom(d.View(), LAST_DATA_FIELD);
    PutKnown(d, output, output.data);
    output.WriteUnknown(d.unknown, old(output.data), DataFieldsTo(d.View(), LAST_DATA_FIELD));
  }

  method DataBlock(d: OperationData) returns (block: Bytes)
    requires d.Ready(d.View()) && d.cachedSize < TWO_31
    ensures block == SerializeData(d.View())
  {
    var target := new byte[d.cachedSize];
    SpliceAll(target[..], SerializeData(d.View()));
    var end := d.SerializeWithCachedSizesToArray(target, 0);
    block := target[..];
  }

  /** The body of the data, straight into the block or to the stream. */
  method WriteDataBody(d: OperationData, output: CodedOutputStream)
    requires d.Ready(d.View()) && output !in d.Repr && d.cachedSize < TWO_31
    modifies output
    ensures output.data == old(output.data) + SerializeData(d.View())
  {
    var direct := output.HasDirectBuffer(d.cachedSize);
    if direct {
      var block := DataBlock(d);
      output.WriteRaw(block);
    } else {
      SerializeDataToStream(d, output);
    }
  }

  method WriteData(op: Operation, output: CodedOutputStream, ghost before: Bytes, ghost fs: seq<UnknownField>)
    requires op.Cached() && output !in op.Repr && Put(output.data, before, fs)
    requires op.hasData ==> |SerializeData(op.shown.value)| < TWO_31
    modifies output
    ensures Put(output.data, before, fs + DataField(op.View().data))
  {
    if !op.hasData {
      assert fs + [] == fs;
      return;
    }
    PutMessage(output.data, before, fs, 2, SerializeData(op.shown.value));
    output.WriteLength(2, op.data.cachedSize);
    WriteDataBody(op.data, output);
  }

  method SerializeOperationToStream(op: Operation, output: CodedOutputStream)
    requires op.Cached() && output !in op.Repr && |SerializeOperation(op.View())| < TWO_31
    modifies output
    ensures output.data == old(output.data) + SerializeOperation(op.View())
  {
    ghost var m, before := op.View(), output.data;
    ghost var f1 := UInt32Field(1, m.serialNumber);
    OperationSizes(m);
    output.WriteVarintIfSet(1, op.serialNumber.has, op.serialNumber.value, before, []);
    assert [] + f1 == f1;
    WriteData(op, output, before, f1);
    output.WriteUnknown(op.unknown, before, f1 + DataField(m.data));
  }

  method OperationBlock(op: Operation) returns (block: Bytes)
    requires op.Cached() && op.cachedSize == |SerializeOperation(op.View())| < TWO_31
    ensures block == SerializeOperation(op.View())
  {
    var target := new byte[op.cachedSize];
    SpliceAll(target[..], SerializeOperation(op.View()));
    var end := op.SerializeWithCachedSizesToArray(target, 0);
    block := target[..];
  }

  /** The body of an element, straight into the block or to the stream. */
  method WriteElementBody(op: Operation, output: CodedOutputStream)
    requires op.Cached() && output !in op.Repr
    requires op.cachedSize == |SerializeOperation(op.View())| < TWO_31
    modifies output
    ensures output.data == old(output.data) + SerializeOperation(op.View())
  {
    var direct := output.HasDirectBuffer(op.cachedSize);
    if direct {
      var block := OperationBlock(op);
      output.WriteRaw(block);
    } else {
      SerializeOperationToStream(op, output);
    }
  }

  method WriteElement(op: Operation, output: CodedOutputStream, ghost before: Bytes, ghost fs: seq<UnknownField>)
    requires op.Cached() && output !in op.Repr && Put(output.data, before, fs)
    requires op.cachedSize == |SerializeOperation(op.View())| < TWO_31
    modifies output
    ensures Put(output.data, before, fs + [ElementField(op.View())])
  {
    PutMessage(output.data, before, fs, 2, SerializeOperation(op.View()));
    output.WriteLength(2, op.cachedSize);
    WriteElementBody(op, output);
  }

  /** `fs` and the first `i` elements have been put. */
  ghost predicate PutElements(now: Bytes, before: Bytes, fs: seq<UnknownField>, ops: seq<OperationMsg>, i: nat)
    requires i <= |ops|
  {
    Put(now, before, fs + OperationFields(ops[..i]))
  }

  method WriteAt(list: OperationList.Elements, i: nat, output: CodedOutputStream,
                 ghost before: Bytes, ghost fs: seq<UnknownField>, ghost ops: seq<OperationMsg>)
    requires list.Cached() && output !in list.Repr && i < list.size && ops == list.shown
    requires PutElements(output.data, before, fs, ops, i) && |EncodeFields(OperationFields(ops))| < TWO_31
    modifies output
    ensures PutElements(output.data, before, fs, ops, i + 1)
  {
    ElementsFit(ops, i);
    OperationList.RoomForNext(fs, ops, i);
    assert list.Ready(list.elements[i], ops[i]);
    WriteElement(list.elements[i], output, before, fs + OperationFields(ops[..i]));
  }

  method WriteElements(list: OperationList.Elements, output: CodedOutputStream,
                       ghost before: Bytes, ghost fs: seq<UnknownField>)
    requires list.Cached() && output !in list.Repr && Put(output.data, before, fs)
    requires |EncodeFields(OperationFields(list.shown))| < TWO_31
    modifies output
    ensures Put(output.data, before, fs + OperationFields(list.shown))
  {
    ghost var ops := list.shown;
    assert ops[..0] == [] && fs + [] == fs;
    for i := 0 to list.size
      invariant list.Cached() && list.shown == ops && PutElements(output.data, before, fs, ops, i)
    {
      WriteAt(list, i, output, before, fs, ops);
    }
    assert ops[..|ops|] == ops;
  }

  method SerializeOperationsToStream(m: Operations, output: CodedOutputStream)
    requires m.operations.Cached() && output !in m.Repr()
    requires |SerializeOperations(m.View())| < TWO_31
    modifies output
    ensures output.data == old(output.data) + SerializeOperations(m.View())
  {
    ghost var v, before := m.View(), output.data;
    ghost var f1 := Int32Field(1, v.avaliable);
    OperationsSizes(v);
    output.WriteVarintIfSet(1, m.avaliable.has, SignExtend(m.avaliable.value), before, []);
    assert [] + f1 == f1;
    WriteElements(m.operations, output, before, f1);
    output.WriteUnknown(m.unknown, before, f1 + OperationFields(v.operations));
  }
}
