/** What the settings encoders and writers share: the byte writer of the tool over its receive buffer
    (apis/tools/src/dd_settings.cpp), and a value appended with its header. */
module SettingsWriting {
  import opened Bytes
  import opened SettingsWire
  import opened DynamicBuffers

  /** The buffer was not transferred; its memory is the one it had, none, or newly allocated. */
  twostate predicate OwnMemory(b: DynamicBuffer)
    reads b
  {
    b.since == old(b.since) && (b.buf == old(b.buf) || b.buf == null || fresh(b.buf))
  }

  /** The buffer went on frugally: it appended at most n bytes, reserved nothing and had no larger size
      in between. */
  twostate predicate Appended(b: DynamicBuffer, n: nat)
    reads b
  {
    && b.Frugal() && b.reservations == old(b.reservations) && b.reserved == old(b.reserved)
    && old(b.size) <= b.size <= old(b.size) + n && b.peak <= Max(old(b.peak), b.size)
  }

  method AppendValue(b: DynamicBuffer, value: Value)
    requires b.Valid() && value.kind < 256
    modifies b, b.buf
    ensures b.Valid() && OwnMemory(b) && (b.error == Success ==> old(b.error) == Success)
    ensures b.error == Success ==> b.contents == old(b.contents) + EncodeValue(value)
    ensures old(b.Frugal()) ==> Appended(b, |EncodeValue(value)|)
  {
    Regroup(b.contents, EncodeValueHeader(value), value.data);
    b.Copy(EncodeValueHeader(value));
    b.Copy(value.data);
  }

  /** ByteWriterBegin: the announced size is reserved, in an empty buffer and with at most one request. */
  method ByteWriterBegin(out: DynamicBuffer, total: nat) returns (ok: bool)
    requires out.Valid()
    modifies out
    ensures out.Valid() && OwnMemory(out) && out.contents == old(out.contents)
    ensures ok <==> old(out.size) == 0 && total > 0 && (total <= old(out.capacity) || out.grants(old(out.asks)))
    ensures ok ==> out.error == old(out.error) && out.size == old(out.size) && out.capacity == Max(old(out.capacity), total)
  {
    var r := out.Reserve(total);
    ok := r == Success;
  }

  /** ByteWriterWriteByte: nothing to write is a success, an earlier error sticks, and what fits the
      reserved memory cannot fail. */
  method ByteWriterWrite(out: DynamicBuffer, bytes: seq<Byte>) returns (ok: bool)
    requires out.Valid()
    modifies out, out.buf
    ensures out.Valid() && OwnMemory(out) && out.contents == old(out.contents) + if ok then bytes else []
    ensures ok <==> out.error == Success || bytes == []
    ensures old(out.error) != Success ==> out.error == old(out.error)
    ensures ok <==> bytes == [] || (old(out.error) == Success && (|bytes| <= old(out.capacity) - old(out.size) || out.grants(old(out.asks))))
    ensures old(out.error) == Success && |bytes| <= old(out.capacity) - old(out.size) ==>
              ok && out.error == Success && out.capacity == old(out.capacity)
  {
    ok := true;
    if |bytes| > 0 {
      out.Copy(bytes);
      ok := out.error == Success;
    }
  }
}
