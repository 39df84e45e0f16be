/** The whole of audit_log_end_hardlog: the record of an event buffer goes to HostBuf. */
module AuditEnd {
  import opened Bytes
  import opened EventBuffer
  import opened HostRing

  /** Every record fits the ring's slot; an end marker leaves the ring as it was. ok is false while the caller
      waits for space; target is the head a priority syscall waits for. */
  method AuditLogEnd(ab: EventBuf, buf: HostBuf) returns (record: Option<seq<byte>>, ok: bool, target: nat)
    requires ab.Valid() && ab.consumed <= BLOCK_SIZE && ab.started
    requires buf.Valid() && buf.buffer != ab.buffer
    modifies ab, ab.buffer, buf`head, buf.buffer
    ensures buf.Valid() && (old(ab.Content()).Some? ==> record == Record(old(ab.Content().value)))
    ensures record.Some? ==> |record.value| <= EVENT_SIZE
    ensures record.None? ==> buf.View() == old(buf.View()) && ok
    ensures record.Some? ==>
              && ok == old(buf.View().HasSpace()) && target == buf.head
              && buf.View() == (if ok then old(buf.View()).Append(record.value) else old(buf.View()))
  {
    record := ab.End();
    ok, target := true, buf.head;
    if record.Some? {
      ok, target := buf.Append(record.value);
    }
  }
}
