/** Encoder and decoder back to back. */
module EndToEnd {
  import opened Bits
  import opened Schema
  import opened Encoding
  import opened Merging
  import opened Defaults
  import opened RoundTrip
  import opened Encoder
  import opened Decoder

  lemma {:induction false} DescriptorWellTagged(fields: seq<Field>)
    requires DescriptorOk(fields)
    ensures WellTagged(fields)
    decreases fields
  {
    forall i | 0 <= i < |fields| ensures fields[i].tag >= 1 && WellTagged(fields[i].sub) {
      assert FieldOk(fields[i]);
      DescriptorWellTagged(fields[i].sub);
    }
  }

  /** A message sent through a buffer large enough arrives; it arrives unchanged, up to
      absent optional fields and what follows a string's NUL, exactly when every singular
      field left out holds its default. */
  method SendAndReceive(fields: seq<Field>, m: Message, capacity: nat) returns (ok: bool, received: Message)
    requires DescriptorOk(fields) && MsgOk(fields, m) && capacity < U32
    ensures ok <==> EncMsg(fields, m).Some? && |EncMsg(fields, m).value| <= capacity
    ensures ok ==> received == ReceivedMsg(fields, m)
    ensures ok ==> (received == CanonMsg(fields, m) <==> KeptMsg(fields, m))
  {
    DescriptorWellTagged(fields);
    var w;
    ok, w := EncodeToBuffer(fields, m, capacity);
    received := m;
    if ok {
      MessageReceived(fields, m, w);
      MsgArrives(fields, m);
      ok, received := DecodeBuffer(fields, w);
    }
  }
}
