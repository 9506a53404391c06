/**
 Bytes that are kept in memory until there are too many of them, and in a file from then on: what is written
 before the switch and after it is read back as if nothing had happened.
 */
module Storage {
  import opened Octets

  /** A file that is opened for reading and writing has one position, which both move. */
  datatype File = File(bytes: Bytes, pos: nat)
  {
    /** Overwrites from the position on, and grows. */
    function Put(data: Bytes): File
      requires pos <= |bytes|
    {
      File(bytes[..pos] + data + (if pos + |data| <= |bytes| then bytes[pos + |data|..] else []), pos + |data|)
    }

    /** What a read of `n` bytes at `from` gets. */
    function Get(from: nat, n: nat): Bytes {
      if from >= |bytes| then [] else bytes[from..from + Min(n, |bytes| - from)]
    }
  }

  class ByteStorage {
    var mem: Bytes
    var file: File
    const spillThreshold: nat
    var totalBytes: nat
    var readPos: nat
    var spilled: bool
    var finished: bool
    var ioError: bool
    /** A read has come to the end of the file too early, and the stream is no longer good. */
    var stuck: bool

    constructor (spillThreshold: nat)
      ensures Valid() && Written() == [] && readPos == 0 && !finished && !ioError && !spilled && !stuck
      ensures this.spillThreshold == spillThreshold
    {
      this.spillThreshold := spillThreshold;
      mem, file, totalBytes, readPos := [], File([], 0), 0, 0;
      spilled, finished, ioError, stuck := false, false, false, false;
    }

    ghost predicate Valid()
      reads this
    {
      && (spilled ==> mem == [])
      && file.pos <= |file.bytes| && readPos <= |Written()|
      && (spilled && !finished ==> file.pos == |file.bytes|)
      && (stuck ==> spilled && finished)
    }

    /** All the bytes that were written, wherever they are now. */
    ghost function Written(): Bytes
      reads this
    {
      if spilled then file.bytes else mem
    }

    /** How far reading can get: a file is not read before it is finished. */
    ghost function Limit(): nat
      reads this
    {
      if !spilled then |mem| else if finished then Min(totalBytes, |file.bytes|) else 0
    }

    /** The bytes that can be read and have not been read yet. */
    ghost function Remaining(): Bytes
      reads this
      requires Valid()
    {
      if readPos < Limit() then Written()[readPos..Limit()] else []
    }

    /** Writing is over, and the number of bytes that was announced is right. */
    ghost predicate IsReadable()
      reads this
    {
      Valid() && finished && !ioError && !stuck && totalBytes == |Written()|
    }

    /** Moves what is in memory to the file, unless the file system fails. */
    method SpillToFile(fault: bool) returns (ok: bool)
      requires Valid() && !spilled
      modifies this
      ensures Valid() && readPos == old(readPos) && finished == old(finished) && totalBytes == old(totalBytes)
      ensures ok <==> !fault
      ensures ioError == (old(ioError) || fault)
      ensures Written() == old(Written()) && spilled == ok && !stuck
      ensures ok ==> file.pos == |file.bytes|
    {
      file := File([], 0);
      if fault {
        ioError := true;
        return false;
      }
      if mem != [] {
        file := file.Put(mem);
        assert file.bytes == mem;
      }
      spilled := true;
      mem := [];
      return true;
    }

    /** A write of `n` bytes needs the file system, and it fails, or something has failed before. */
    predicate Refuses(n: nat, fault: bool)
      reads this
    {
      ioError || ((spilled || 0 < spillThreshold < |mem| + n) && (fault || stuck))
    }

    /**
     Appends, in memory or in the file; but what is written to a finished file that has been read goes to where
     reading has got to, over what is there.  `fault` says whether the file system fails during this call.
     */
    method Write(data: Bytes, fault: bool) returns (ok: bool)
      requires Valid()
      modifies this
      ensures Valid() && readPos == old(readPos) && finished == old(finished) && totalBytes == old(totalBytes)
      ensures ok <==> data == [] || !old(Refuses(|data|, fault))
      ensures !fault && !old(ioError || stuck) ==> ok && !ioError
      ensures ok ==> ioError == old(ioError) && stuck == old(stuck)
      ensures ok ==> Written() == if old(spilled) && data != [] then old(file).Put(data).bytes else old(Written()) + data
      ensures ok ==> (Written() == old(Written()) + data <==>
                        data == [] || !(old(spilled) && old(file.pos < |file.bytes|)))
      ensures !ok ==> Written() == old(Written()) && ioError
      ensures ok && data != [] ==> (spilled <==> old(spilled) || 0 < spillThreshold < old(|mem|) + |data|)
    {
      if data == [] {
        assert Written() + data == Written();
        return true;
      }
      if ioError {
        return false;
      }
      if !spilled && spillThreshold > 0 && |mem| + |data| > spillThreshold {
        ok := SpillToFile(fault);
        if !ok {
          return;
        }
      }
      if spilled {
        if fault || stuck {
          ioError := true;
          return false;
        }
        PutAppends(file, data);
        file := file.Put(data);
      } else {
        mem := mem + data;
      }
      return true;
    }

    /** Announces how many bytes there are to read. */
    method Finish(stored: nat, fault: bool)
      requires Valid()
      modifies this
      ensures Valid() && totalBytes == stored && Written() == old(Written()) && readPos == old(readPos)
      ensures !(spilled && (fault || stuck)) ==> finished && ioError == old(ioError)
      ensures spilled && (fault || stuck) ==> ioError && finished == old(finished)
      ensures spilled == old(spilled) && stuck == old(stuck)
    {
      totalBytes := stored;
      if spilled {
        if fault || stuck {
          ioError := true;
          return;
        }
      }
      finished := true;
    }

    /** A call of the file system fails, or has failed. */
    predicate Fails(fault: bool)
      reads this
    {
      ioError || (spilled && (fault || stuck))
    }

    /** A read goes to the file. */
    predicate Reaches()
      reads this
    {
      spilled && finished && readPos < totalBytes
    }

    /** There is as much as was announced. */
    ghost predicate IsComplete()
      reads this
    {
      spilled && finished ==> totalBytes <= |Written()|
    }

    method Read(want: nat, fault: bool) returns (out: Bytes)
      requires Valid()
      modifies this
      ensures Valid() && Written() == old(Written()) && spilled == old(spilled) && Limit() == old(Limit())
      ensures finished == old(finished) && totalBytes == old(totalBytes)
      ensures out == if old(Fails(fault)) then [] else old(Remaining())[..Min(want, |old(Remaining())|)]
      ensures Remaining() == old(Remaining())[|out|..]
      ensures ioError == (old(ioError) || (want > 0 && old(Reaches()) && (fault || old(stuck))))
      ensures !old(Fails(fault)) && stuck ==> !IsComplete() && Remaining() == []
    {
      ghost var was := Remaining();
      assert was[0..] == was;
      if want == 0 || ioError {
        return [];
      }
      if spilled {
        out := ReadFile(want, fault);
        return;
      }
      var n := Min(|mem| - readPos, want);
      assert was == mem[readPos..];
      out := mem[readPos..readPos + n];
      readPos := readPos + n;
      assert was[n..] == mem[readPos..] == Remaining();
    }

    /** Short at the end of a file that has less than was announced, and an error from then on. */
    method ReadFile(want: nat, fault: bool) returns (out: Bytes)
      requires Valid() && spilled && !ioError && want > 0
      modifies this
      ensures Valid() && Written() == old(Written()) && spilled && Limit() == old(Limit())
      ensures finished == old(finished) && totalBytes == old(totalBytes)
      ensures out == if fault || old(stuck) then [] else old(Remaining())[..Min(want, |old(Remaining())|)]
      ensures Remaining() == old(Remaining())[|out|..]
      ensures ioError <==> old(Reaches()) && (fault || old(stuck))
      ensures !old(Fails(fault)) && stuck ==> !IsComplete() && Remaining() == []
    {
      if !finished || readPos >= totalBytes {
        return [];
      }
      var n := Min(want, totalBytes - readPos);
      if fault || stuck {
        ioError := true;
        return [];
      }
      out := file.Get(readPos, n);
      file := file.(pos := readPos + |out|);
      readPos := readPos + |out|;
      stuck := |out| < n;
    }

    method Fetch(fault: bool) returns (b: Option<Octet>)
      requires Valid()
      modifies this
      ensures Valid() && Written() == old(Written()) && spilled == old(spilled) && Limit() == old(Limit())
      ensures finished == old(finished) && totalBytes == old(totalBytes)
      ensures b.None? <==> old(Fails(fault)) || old(Remaining()) == []
      ensures b.Some? ==> old(Remaining()) == [b.value] + Remaining()
      ensures b.None? ==> Remaining() == old(Remaining())
      ensures spilled && b.Some? ==> file.pos == readPos == old(readPos) + 1
      ensures ioError == (old(ioError) || (old(Reaches()) && b.None?))
      ensures !old(Fails(fault)) && stuck ==> !IsComplete() && Remaining() == []
    {
      if ioError {
        return None;
      }
      if spilled {
        b := FetchFile(fault);
        return;
      }
      if readPos >= |mem| {
        return None;
      }
      b := Some(mem[readPos]);
      readPos := readPos + 1;
    }

    method FetchFile(fault: bool) returns (b: Option<Octet>)
      requires Valid() && spilled && !ioError
      modifies this
      ensures Valid() && Written() == old(Written()) && spilled && Limit() == old(Limit())
      ensures finished == old(finished) && totalBytes == old(totalBytes)
      ensures b.None? <==> fault || old(stuck) || old(Remaining()) == []
      ensures b.Some? ==> old(Remaining()) == [b.value] + Remaining() && file.pos == readPos == old(readPos) + 1
      ensures b.None? ==> Remaining() == old(Remaining())
      ensures ioError <==> old(Reaches()) && b.None?
      ensures !old(Fails(fault)) && stuck ==> !IsComplete() && Remaining() == []
    {
      if !finished || readPos >= totalBytes {
        return None;
      }
      if fault || stuck {
        ioError := true;
        return None;
      }
      var c := file.Get(readPos, 1);
      if c == [] {
        ioError, stuck := true, true;
        return None;
      }
      file := file.(pos := readPos + 1);
      b := Some(c[0]);
      readPos := readPos + 1;
    }

    function Exhausted(): bool
      reads this
    {
      if spilled then finished && readPos >= totalBytes else readPos >= |mem|
    }

    /** The end is reported exactly when everything has been read; but never of a file that is not finished, or that
        has less than was announced. */
    lemma ExhaustedAtTheEnd()
      requires Valid()
      ensures Exhausted() <==> Remaining() == [] && (spilled ==> finished && IsComplete())
    {
    }
  }

  /** A write leaves what is there and appends exactly if there is nothing to write, or the position is at the end. */
  lemma PutAppends(f: File, data: Bytes)
    requires f.pos <= |f.bytes|
    ensures f.Put(data).bytes == f.bytes + data <==> data == [] || f.pos == |f.bytes|
  {
    var after := f.Put(data).bytes;
    if after == f.bytes + data && data != [] {
      assert |after| == |f.bytes| + |data|;
    }
  }

  // ---- writer and reader

  class Writer {
    var storage: ByteStorage
    var bytes: nat
    var finished: bool

    /** Until it is finished, a writer has counted what it has written, and nothing has been read. */
    ghost predicate Valid()
      reads this, storage
    {
      && storage.Valid()
      && (!finished ==> bytes == |storage.Written()| && storage.readPos == 0 && !storage.finished)
    }

    lemma IsNotStuck()
      requires Valid() && !finished
      ensures !storage.stuck
    {
    }

    constructor (spillThreshold: nat)
      ensures Valid() && fresh(storage) && !finished && !storage.ioError && storage.Written() == []
    {
      storage := new ByteStorage(spillThreshold);
      bytes, finished := 0, false;
    }

    method Write(data: Bytes, fault: bool) returns (ok: bool)
      requires Valid()
      modifies this`bytes, storage
      ensures Valid()
      ensures ok <==> data == [] || !old(storage.Refuses(|data|, fault))
      ensures !fault && !old(storage.ioError || storage.stuck) ==> ok && !storage.ioError
      ensures ok ==> storage.ioError == old(storage.ioError) && bytes == old(bytes) + |data|
      ensures ok && !finished ==> storage.Written() == old(storage.Written()) + data
      ensures !ok ==> storage.Written() == old(storage.Written()) && bytes == old(bytes)
    {
      ok := storage.Write(data, fault);
      if !ok {
        return;
      }
      bytes := bytes + |data|;
    }

    method Finish(count: nat, fault: bool)
      requires Valid()
      modifies this`finished, storage
      ensures Valid() && finished && storage.Written() == old(storage.Written()) && storage.totalBytes == count
      ensures storage.finished == (old(storage.finished) || !(old(storage.spilled) && (fault || old(storage.stuck))))
      ensures storage.ioError == (old(storage.ioError) || (old(storage.spilled) && (fault || old(storage.stuck))))
      ensures storage.stuck == old(storage.stuck) && storage.readPos == old(storage.readPos)
    {
      storage.Finish(count, fault);
      finished := true;
    }

    /** Hands over the storage, finished if it is not; the writer is left with an empty one. */
    method Release(fault: bool) returns (released: ByteStorage)
      requires Valid()
      modifies this`finished, this`storage, storage
      ensures Valid() && finished && fresh(storage) && storage.Written() == []
      ensures released == old(storage) && released.Valid() && released.Written() == old(storage.Written())
      ensures !fault && !old(finished) && !old(storage.ioError) ==>
                released.IsReadable() && released.Remaining() == released.Written()
      ensures !old(finished) ==> released.totalBytes == old(bytes)
                                 && released.finished == !(old(storage.spilled) && (fault || old(storage.stuck)))
      ensures old(finished) ==> released.totalBytes == old(storage.totalBytes) && released.finished == old(storage.finished)
    {
      if !finished {
        Finish(bytes, fault);
      }
      released := storage;
      storage := new ByteStorage(0);
    }
  }

  class Reader {
    const storage: ByteStorage
    const borrowed: Bytes
    var borrowedPos: nat
    var failed: bool
    const isBorrowed: bool

    ghost predicate Valid()
      reads this, storage
    {
      if isBorrowed then borrowedPos <= |borrowed| else storage.Valid()
    }

    /** What is still to come. */
    ghost function Remaining(): Bytes
      reads this, storage
      requires Valid()
    {
      if isBorrowed then borrowed[borrowedPos..] else storage.Remaining()
    }

    /** The file system fails, or has failed. */
    predicate Fails(fault: bool)
      reads this, storage
    {
      !isBorrowed && storage.Fails(fault)
    }

    ghost predicate IsComplete()
      reads this, storage
    {
      isBorrowed || storage.IsComplete()
    }

    /** All that was announced is there to be read. */
    ghost predicate IsWhole()
      reads this, storage
    {
      isBorrowed || (storage.finished && storage.IsComplete())
    }

    constructor Owning(storage: ByteStorage)
      requires storage.Valid()
      ensures Valid() && Remaining() == storage.Remaining() && this.storage == storage && !isBorrowed && !failed
    {
      this.storage := storage;
      borrowed, borrowedPos, failed, isBorrowed := [], 0, false, false;
    }

    constructor Borrowing(source: Bytes)
      ensures Valid() && Remaining() == source && fresh(storage) && isBorrowed && !failed
    {
      storage := new ByteStorage(0);
      borrowed, borrowedPos, failed, isBorrowed := source, 0, false, true;
    }

    method Read(want: nat, fault: bool) returns (out: Bytes)
      requires Valid()
      modifies this, storage
      ensures Valid() && IsComplete() == old(IsComplete())
      ensures storage.spilled == old(storage.spilled) && storage.finished == old(storage.finished)
      ensures out == if old(Fails(fault)) then [] else old(Remaining())[..Min(want, |old(Remaining())|)]
      ensures Remaining() == old(Remaining())[|out|..] && old(Remaining()) == out + Remaining()
      ensures failed == (old(failed) || (want > 0 && out == [] && !isBorrowed && storage.ioError))
      ensures want > 0 && old(Remaining()) != [] && old(Fails(fault)) ==> failed
      ensures !old(Fails(fault)) && Fails(false) ==> !IsComplete() && Remaining() == []
    {
      if want == 0 {
        return [];
      }
      if isBorrowed {
        if borrowedPos == |borrowed| {
          return [];
        }
        var n := Min(want, |borrowed| - borrowedPos);
        out := borrowed[borrowedPos..borrowedPos + n];
        borrowedPos := borrowedPos + n;
        return;
      }
      out := storage.Read(want, fault);
      if out == [] && storage.ioError {
        failed := true;
      }
    }

    method Fetch(fault: bool) returns (b: Option<Octet>)
      requires Valid()
      modifies this, storage
      ensures Valid() && IsComplete() == old(IsComplete())
      ensures storage.spilled == old(storage.spilled) && storage.finished == old(storage.finished)
      ensures b.None? <==> old(Fails(fault)) || old(Remaining()) == []
      ensures b.Some? ==> old(Remaining()) == [b.value] + Remaining()
      ensures b.None? ==> Remaining() == old(Remaining())
      ensures failed == (old(failed) || (b.None? && !isBorrowed && storage.ioError))
      ensures !old(Fails(fault)) && Fails(false) ==> !IsComplete() && Remaining() == []
    {
      if isBorrowed {
        if borrowedPos == |borrowed| {
          return None;
        }
        b := Some(borrowed[borrowedPos]);
        borrowedPos := borrowedPos + 1;
        return;
      }
      b := storage.Fetch(fault);
      if b.None? && storage.ioError {
        failed := true;
      }
    }

    method Eof() returns (eof: bool)
      requires Valid()
      ensures eof <==> Remaining() == [] && (!isBorrowed && storage.spilled ==> storage.finished && IsComplete())
    {
      if isBorrowed {
        return borrowedPos == |borrowed|;
      }
      storage.ExhaustedAtTheEnd();
      return storage.Exhausted();
    }

    /** Everything up to the end, or up to the first fault; `faults` says which of the reads meet one. */
    method ReadAll(faults: seq<bool>) returns (out: Bytes)
      requires Valid()
      modifies this, storage
      ensures Valid() && old(Remaining()) == out + Remaining() && IsComplete() == old(IsComplete())
      ensures storage.spilled == old(storage.spilled) && storage.finished == old(storage.finished)
      ensures Remaining() == [] || failed
      ensures (forall i | 0 <= i < |faults| :: !faults[i]) && !old(failed) && !old(Fails(false)) ==>
                && out == old(Remaining()) && Remaining() == []
                && (IsComplete() ==> !failed && !Fails(false))
    {
      hide Valid, Remaining, ByteStorage.IsReadable, ByteStorage.Valid, ByteStorage.IsComplete, IsComplete;
      ghost var all := Remaining();
      ghost var smooth := (forall i | 0 <= i < |faults| :: !faults[i]) && !failed && !Fails(false);
      out := [];
      var eof := Eof();
      var calls := 0;
      Advance(all, [], [], all);
      while !eof && !failed
        invariant Valid() && out + Remaining() == all && IsComplete() == old(IsComplete())
        invariant storage.spilled == old(storage.spilled) && storage.finished == old(storage.finished)
        invariant eof ==> Remaining() == []
        invariant smooth ==> !failed && (Fails(false) ==> !IsComplete() && Remaining() == [])
        decreases |Remaining()|
      {
        var bytes := Read(8192, calls < |faults| && faults[calls]);
        calls := calls + 1;
        if bytes == [] {
          break;
        }
        Advance(all, out, bytes, Remaining());
        out := out + bytes;
        eof := Eof();
      }
      if Remaining() == [] {
        Advance(all, out, [], []);
      }
    }
  }

  lemma Advance(all: Bytes, out: Bytes, bytes: Bytes, rest: Bytes)
    requires out + (bytes + rest) == all
    ensures (out + bytes) + rest == all
  {
  }

  // ---- a whole life

  function Flatten(pieces: seq<Bytes>): Bytes { if pieces == [] then [] else pieces[0] + Flatten(pieces[1..]) }

  datatype Ask = ReadUpTo(n: nat) | FetchOne | Everything

  /** How many of `left` bytes the requests take. */
  function Taken(asks: seq<Ask>, left: nat): (n: nat)
    ensures n <= left
  {
    if asks == [] then 0
    else
      var n := match asks[0] case ReadUpTo(k) => Min(k, left) case FetchOne => Min(1, left) case Everything => left;
      n + Taken(asks[1..], left - n)
  }

  /** One request, whichever it is. */
  method Serve(reader: Reader, ask: Ask) returns (out: Bytes)
    requires reader.Valid() && !reader.failed && !reader.Fails(false)
    requires reader.IsWhole()
    modifies reader, reader.storage
    ensures reader.Valid() && !reader.failed && !reader.Fails(false)
    ensures reader.IsWhole()
    ensures old(reader.Remaining()) == out + reader.Remaining()
    ensures |out| == Taken([ask], |old(reader.Remaining())|)
  {
    match ask {
      case ReadUpTo(n) => out := reader.Read(n, false);
      case FetchOne =>
        var b := reader.Fetch(false);
        out := if b.Some? then [b.value] else [];
      case Everything =>
        out := reader.ReadAll([]);
        assert out + [] == out;
    }
  }

  /** Writes the pieces one after the other. */
  method WriteAll(writer: Writer, pieces: seq<Bytes>)
    requires writer.Valid() && !writer.finished && !writer.storage.ioError && writer.storage.Written() == []
    modifies writer`bytes, writer.storage
    ensures writer.Valid() && !writer.finished && !writer.storage.ioError
    ensures writer.storage.Written() == Flatten(pieces)
  {
    hide Writer.Valid, ByteStorage.Valid, ByteStorage.Written;
    var i := 0;
    assert pieces[0..] == pieces && [] + Flatten(pieces) == Flatten(pieces);
    while i < |pieces|
      invariant i <= |pieces| && writer.Valid() && !writer.finished && !writer.storage.ioError
      invariant writer.storage.Written() + Flatten(pieces[i..]) == Flatten(pieces)
    {
      ghost var was := writer.storage.Written();
      writer.IsNotStuck();
      var ok := writer.Write(pieces[i], false);
      assert pieces[i..][1..] == pieces[i + 1..];
      assert was + (pieces[i] + Flatten(pieces[i + 1..])) == (was + pieces[i]) + Flatten(pieces[i + 1..]);
      i := i + 1;
    }
    assert pieces[i..] == [] && writer.storage.Written() + [] == writer.storage.Written();
  }

  method ServeAll(reader: Reader, asks: seq<Ask>) returns (out: Bytes)
    requires reader.Valid() && !reader.failed && !reader.Fails(false)
    requires reader.IsWhole()
    modifies reader, reader.storage
    ensures reader.Valid()
    ensures reader.IsWhole()
    ensures out + reader.Remaining() == old(reader.Remaining())
    ensures |out| == Taken(asks, |old(reader.Remaining())|)
  {
    hide Reader.Valid, Reader.Remaining, Reader.Fails, Reader.IsWhole, Taken;
    if asks == [] {
      NothingIsTaken(|reader.Remaining()|);
      return [];
    }
    ghost var all := reader.Remaining();
    var first := Serve(reader, asks[0]);
    ghost var middle := reader.Remaining();
    TakenStep(asks, |first|, |all|);
    var others := ServeAll(reader, asks[1..]);
    Advance(all, first, others, reader.Remaining());
    return first + others;
  }

  /**
   Whatever the threshold: after any pieces have been written, any mix of requests gets the bytes of all
   pieces, in order and once, and the end is reported exactly when they have all been got.
   */
  method SpillingIsTransparent(spillThreshold: nat, pieces: seq<Bytes>, asks: seq<Ask>) returns (out: Bytes, eof: bool)
    ensures out == Flatten(pieces)[..Taken(asks, |Flatten(pieces)|)]
    ensures eof <==> out == Flatten(pieces)
  {
    hide Flatten, Taken;
    var writer := new Writer(spillThreshold);
    WriteAll(writer, pieces);
    var storage := writer.Release(false);
    var reader := new Reader.Owning(storage);
    out := ServeAll(reader, asks);
    eof := reader.Eof();
    FrontOf(out, reader.Remaining());
  }

  /** Three bytes in a file, one of them read. */
  method HalfRead() returns (storage: ByteStorage)
    ensures fresh(storage) && storage.Valid() && !storage.ioError && !storage.stuck
    ensures storage.spilled && storage.finished && storage.totalBytes == 3 && storage.readPos == 1
    ensures storage.file == File("abc", 1)
  {
    storage := new ByteStorage(1);
    var ok := storage.Write("abc", false);
    assert storage.Written() == "abc";
    storage.Finish(3, false);
    var first := storage.Fetch(false);
  }

  /** A file that has been read is no place to write to: what is written takes the place of what is still to come. */
  method WritingOverwrites() returns (out: Bytes)
    ensures out == "xc"
  {
    var storage := HalfRead();
    assert storage.file.Put("x").bytes == "axc";
    var ok := storage.Write("x", false);
    assert storage.Remaining() == "xc";
    out := storage.Read(3, false);
  }

  lemma FrontOf(out: Bytes, rest: Bytes)
    ensures (out + rest)[..|out|] == out && (rest == [] <==> out + rest == out)
  {
    assert |out + rest| == |out| + |rest|;
  }

  lemma NothingIsTaken(left: nat)
    ensures Taken([], left) == 0
  {
  }

  lemma TakenStep(asks: seq<Ask>, n: nat, left: nat)
    requires asks != [] && n == Taken([asks[0]], left)
    ensures Taken(asks, left) == n + Taken(asks[1..], left - n)
  {
  }
}
