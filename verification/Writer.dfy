/** A file behind a `BufWriter` in append mode, with every state the file passes through recorded. */
module Writer {
  import opened Bytes

  /** The states added to the trail all lie between two byte strings, as prefixes order them. */
  ghost predicate Between(before: seq<ByteString>, after: seq<ByteString>, low: ByteString, high: ByteString) {
    before <= after && forall i :: |before| <= i < |after| ==> low <= after[i] <= high
  }

  lemma PrefixTrans(a: ByteString, b: ByteString, c: ByteString)
    requires a <= b && b <= c
    ensures a <= c
  {
  }

  lemma BetweenTrans(t0: seq<ByteString>, t1: seq<ByteString>, t2: seq<ByteString>,
                     low: ByteString, mid: ByteString, low': ByteString, high: ByteString)
    requires Between(t0, t1, low, mid) && Between(t1, t2, low', high)
    requires low <= low' && mid <= high
    ensures Between(t0, t2, low, high)
  {
    forall i | |t0| <= i < |t2|
      ensures low <= t2[i] <= high
    {
      if i < |t1| {
        assert t2[i] == t1[i];
        PrefixTrans(t2[i], mid, high);
      } else {
        PrefixTrans(low, low', t2[i]);
      }
    }
  }

  class BufferedFile {
    const capacity: nat
    var file: ByteString
    var buffer: ByteString
    ghost var trail: seq<ByteString>

    constructor (capacity: nat, contents: ByteString)
      ensures this.capacity == capacity && file == contents && buffer == [] && trail == []
    {
      this.capacity := capacity;
      file, buffer, trail := contents, [], [];
    }

    ghost function Contents(): ByteString
      reads this
    {
      file + buffer
    }

    /** The operating system takes the bytes in pieces of its own choosing. */
    method Emit(bytes: ByteString)
      modifies this
      ensures file == old(file) + bytes && buffer == old(buffer)
      ensures Between(old(trail), trail, old(file), old(file) + bytes)
    {
      var sent := 0;
      assert bytes[..0] == [];
      while sent < |bytes|
        invariant sent <= |bytes| && file == old(file) + bytes[..sent] && buffer == old(buffer)
        invariant Between(old(trail), trail, old(file), old(file) + bytes)
      {
        var n :| 0 < n <= |bytes| - sent;
        assert bytes[..sent + n] == bytes[..sent] + bytes[sent..sent + n];
        file := file + bytes[sent..sent + n];
        trail := trail + [file];
        sent := sent + n;
      }
      assert bytes[..sent] == bytes;
    }

    method Flush()
      modifies this
      ensures file == old(Contents()) && buffer == []
      ensures Between(old(trail), trail, old(file), old(Contents()))
    {
      Emit(buffer);
      buffer := [];
    }

    /** `BufWriter::write_all`: buffer what fits, otherwise flush, and bypass the buffer for large writes. */
    method WriteAll(bytes: ByteString)
      modifies this
      ensures Contents() == old(Contents()) + bytes && old(file) <= file
      ensures Between(old(trail), trail, old(file), old(Contents()) + bytes)
      ensures |old(buffer)| <= capacity ==> |buffer| <= capacity
      ensures |old(buffer)| + |bytes| < capacity ==> file == old(file)
    {
      var spare := capacity - |buffer|;
      if |bytes| < spare {
        buffer := buffer + bytes;
      } else {
        if |bytes| > spare {
          Flush();
        }
        ghost var mid, low := trail, file;
        assert Between(old(trail), mid, old(file), old(Contents()));
        if |bytes| >= capacity {
          Emit(bytes);
        } else {
          buffer := buffer + bytes;
        }
        BetweenTrans(old(trail), mid, trail, old(file), old(Contents()), low, old(Contents()) + bytes);
      }
    }

    /** `File::set_len(0)` on the append-mode handle. */
    method Truncate()
      modifies this
      ensures file == [] && buffer == old(buffer) && trail == old(trail) + [[]]
    {
      file := [];
      trail := trail + [file];
    }
  }
}
