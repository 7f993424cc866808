/** The write-ahead log (storage/src/wal.c): records buffered in memory, appended to the
    log file in LSN order. */
module Wal {
  const WAL_BUFFER_SIZE: nat := 1024 * 1024
  /** sizeof(wal_record_t). */
  const RECORD_HEADER: nat := 32

  datatype Record = Record(lsn: nat, txn: nat, kind: nat, pageId: nat, length: nat)

  /** Bytes a record takes in the buffer, rounded up to a multiple of 8. */
  function RecordSize(length: nat): (n: nat)
    ensures RECORD_HEADER + length <= n < RECORD_HEADER + length + 8 && n % 8 == 0
  {
    (RECORD_HEADER + length + 7) / 8 * 8
  }

  function TotalSize(rs: seq<Record>): nat {
    if |rs| == 0 then 0 else TotalSize(rs[..|rs| - 1]) + RecordSize(rs[|rs| - 1].length)
  }

  /** Records in log order: LSNs count up from 1 without gap or repeat. */
  ghost predicate Numbered(rs: seq<Record>) {
    forall i :: 0 <= i < |rs| ==> rs[i].lsn == i + 1
  }

  class Log {
    /** Records durable in the log file. */
    var file: seq<Record>
    /** Records only in memory. */
    var buffer: seq<Record>
    var pos: nat
    var nextLsn: nat
    /** Whether any flush has failed so far. */
    ghost var failed: bool

    ghost predicate Valid()
      reads this
    {
      && Numbered(file + buffer)
      && nextLsn == |file| + |buffer| + 1
      && pos == TotalSize(buffer) <= WAL_BUFFER_SIZE
    }

    constructor ()
      ensures Valid() && file == [] && buffer == [] && nextLsn == 1 && !failed
    {
      file, buffer, pos, nextLsn, failed := [], [], 0, 1, false;
    }

    /** flush_wal_buffer: on success every record written so far is durable; on failure the
        buffer is kept for a later flush. */
    method Flush(ioOk: bool) returns (ok: bool)
      requires Valid()
      modifies this
      ensures Valid() && nextLsn == old(nextLsn) && file + buffer == old(file + buffer)
      ensures ok ==> buffer == [] && |file| == nextLsn - 1
      ensures !ok ==> file == old(file) && failed
      ensures ok ==> failed == old(failed)
      ensures |old(file)| <= |file|
      ensures ok <==> ioOk || old(pos) == 0
    {
      ok := true;
      if pos > 0 {
        if !ioOk {
          failed := true;
          return false;
        }
        file, buffer, pos := file + buffer, [], 0;
      } else {
        EmptyAtZero(buffer);
      }
      assert file + buffer == old(file + buffer);
    }

    /** write_wal_record: flushes first when the record does not fit, then appends it under
        the next LSN.  A record larger than the whole buffer is refused. */
    method WriteRecord(txn: nat, kind: nat, pageId: nat, length: nat, ioOk: bool) returns (ok: bool)
      requires Valid()
      modifies this
      ensures Valid() && |old(file)| <= |file|
      ensures ok ==> file + buffer == old(file + buffer) + [Record(old(nextLsn), txn, kind, pageId, length)]
      ensures !ok ==> file + buffer == old(file + buffer) && nextLsn == old(nextLsn)
      ensures RecordSize(length) > WAL_BUFFER_SIZE ==> !ok
      ensures ioOk && RecordSize(length) <= WAL_BUFFER_SIZE ==> ok && failed == old(failed)
      ensures old(failed) ==> failed
    {
      if RecordSize(length) > WAL_BUFFER_SIZE {
        return false;
      }
      if pos + RecordSize(length) > WAL_BUFFER_SIZE {
        var flushed := Flush(ioOk);
        if !flushed {
          return false;
        }
      }
      var r := Record(nextLsn, txn, kind, pageId, length);
      nextLsn := nextLsn + 1;
      buffer := buffer + [r];
      pos := pos + RecordSize(length);
      assert file + buffer == old(file + buffer) + [r];
      return true;
    }
  }

  lemma {:induction false} EmptyAtZero(rs: seq<Record>)
    requires TotalSize(rs) == 0
    ensures rs == []
  {
  }
}
