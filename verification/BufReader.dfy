/** bufio.Reader: ReadSlice, ReadLine and ReadBytes over any chunking of a finite stream. */
module BufReader {
  import opened Basics
  import opened Io
  import opened Lines

  const MIN_READ_BUFFER_SIZE: nat := 16
  const MAX_CONSECUTIVE_EMPTY_READS: nat := 100

  class Reader {
    const buf: array<Byte>
    const rd: Source
    var r: nat
    var w: nat
    var err: Option<Error>

    /** A pending error is the stream's own, with nothing left to read, or the complaint
        about a source that stayed silent too often. */
    ghost predicate Valid()
      reads this, rd
    {
      && r <= w <= buf.Length && buf.Length >= MIN_READ_BUFFER_SIZE
      && (rd.final.EOF? || rd.final.Failure?)
      && (err.Some? ==> Ends(err.value))
    }

    ghost predicate Ends(e: Error)
      reads rd
    {
      (e == rd.final && rd.rest == []) || e == ErrNoProgress
    }

    /** What the next read depends on. */
    ghost function Now(): View
      reads this, buf, rd
      requires Valid()
    {
      View(buf[r..w], rd.rest, rd.schedule, err)
    }

    /** The stream as the caller still has to see it. */
    ghost function Unread(): Bytes
      reads this, buf, rd
      requires Valid()
    {
      buf[r..w] + rd.rest
    }

    constructor (rd: Source, size: int)
      requires rd.final.EOF? || rd.final.Failure?
      ensures Valid() && fresh(buf) && this.rd == rd && Now() == View([], rd.rest, rd.schedule, None)
      ensures buf.Length == if size < MIN_READ_BUFFER_SIZE then MIN_READ_BUFFER_SIZE else size
    {
      buf := new Byte[if size < MIN_READ_BUFFER_SIZE then MIN_READ_BUFFER_SIZE else size](_ => 0);
      this.rd, r, w, err := rd, 0, 0, None;
    }

    function Buffered(): int
      reads this
    {
      w - r
    }

    /** Slide existing data to the beginning. */
    method Slide()
      requires Valid()
      modifies this`r, this`w, buf
      ensures r == 0 && w == old(w - r) && buf[..w] == old(buf[r..w])
    {
      if r > 0 {
        MoveDown(buf, 0, r, w - r);
        w := w - r;
        r := 0;
      }
    }

    /** fill slides the unread bytes to the front and adds at least one byte or an error. */
    method Fill()
      requires Valid() && Buffered() < buf.Length && err.None?
      modifies this, buf, rd
      ensures Valid() && r == 0 && Unread() == old(Unread())
      ensures Now() == Filled(old(Now()), buf.Length, rd.final)
      ensures old(w - r) <= w && buf[..w][..old(w - r)] == old(buf[r..w])
      ensures err.None? ==> w > old(w - r)
    {
      hide Tries, Filled, Coming, Amount, TellsEnd;
      ghost var v := Now();
      Slide();
      ghost var room: nat := buf.Length - w;
      ghost var t := Tries(MAX_CONSECUTIVE_EMPTY_READS, v.rest, v.schedule, room, rd.final);
      var i := MAX_CONSECUTIVE_EMPTY_READS;
      while i > 0
        invariant 0 <= i <= MAX_CONSECUTIVE_EMPTY_READS
        invariant r == 0 && w == |v.data| < buf.Length && err.None?
        invariant buf[..w] == v.data && rd.rest == v.rest
        invariant Tries(i, v.rest, rd.schedule, room, rd.final) == t
      {
        TriesOne(i, v.rest, rd.schedule, room, rd.final);
        var n, e := rd.Read(buf, w);
        w := w + n;
        assert buf[r..w] == buf[..w] == v.data + v.rest[..n];
        if e.Some? {
          err := e;
          FilledIs(v, buf.Length, rd.final, t);
          return;
        }
        if n > 0 {
          FilledIs(v, buf.Length, rd.final, t);
          return;
        }
        i := i - 1;
      }
      TriesNone(v.rest, rd.schedule, room, rd.final);
      assert buf[r..w] == v.data;
      FilledIs(v, buf.Length, rd.final, t);
      err := Some(ErrNoProgress);
    }

    /** Search the buffer from s on; what comes before was searched already. */
    method FindFrom(s: nat, delim: Byte) returns (i: int)
      requires Valid() && s <= w - r && delim !in buf[r..r + s]
      ensures i == IndexByte(buf[r..w], delim) && (i < 0 ==> delim !in buf[r..w])
    {
      hide IndexByte;
      i := IndexByte(buf[r + s..w], delim);
      assert buf[r..w][s..] == buf[r + s..w] && buf[r..w][..s] == buf[r..r + s];
      Searched(buf[r..w], s, delim);
      if i >= 0 {
        i := i + s;
        assert buf[r..w][..i + 1] == buf[r..r + i + 1];
      }
    }

    /** See if the line ends in what is buffered, searched from s on, or if an error or a full
        buffer puts an end to it. */
    method SliceHeld(s: nat, delim: Byte) returns (found: bool, line: Bytes, e: Option<Error>)
      requires Valid() && s <= w - r && delim !in buf[r..r + s]
      modifies this`r, this`err
      ensures Valid()
      ensures found ==> (line, e, Now()) == Slice(old(Now()), buf.Length, rd.final, delim)
      ensures e == Some(ErrBufferFull) ==> r == buf.Length && line == buf[..]
      ensures !found ==>
        unchanged(this) && err.None? && w - r < buf.Length && delim !in buf[r..w] && e.None?
    {
      hide IndexByte, Filled, Slice;
      ghost var v := Now();
      found, line, e := true, [], None;
      var i := FindFrom(s, delim);
      if i >= 0 {
        line := buf[r..r + i + 1];
        r := r + i + 1;
        assert line == v.data[..i + 1] && buf[r..w] == v.data[i + 1..];
        SliceFound(v, buf.Length, rd.final, delim, i);
      } else if err.Some? {
        line := buf[r..w];
        r, err, e := w, None, err;
        assert buf[r..w] == [];
        SliceStops(v, buf.Length, rd.final, delim);
      } else if Buffered() >= buf.Length {
        line := buf[r..w];
        r, e := w, Some(ErrBufferFull);
        assert buf[r..w] == [];
        SliceStops(v, buf.Length, rd.final, delim);
      } else {
        found := false;
      }
    }

    /** ReadSlice gives no error exactly when the line ends in delim; otherwise it gives a
        full buffer, or all that is left. */
    method ReadSlice(delim: Byte) returns (line: Bytes, e: Option<Error>)
      requires Valid()
      modifies this, buf, rd
      ensures Valid() && old(Unread()) == line + Unread()
      ensures e.None? ==> line != [] && IndexByte(line, delim) == |line| - 1
      ensures e.Some? ==> delim !in line
      ensures e == Some(ErrBufferFull) ==> r == buf.Length && line == buf[..]
      ensures e.Some? && e.value != ErrBufferFull ==> Ends(e.value) && r == w
      ensures (line, e, Now()) == Slice(old(Now()), buf.Length, rd.final, delim)
    {
      hide IndexByte, Filled, Slice;
      ghost var x := Slice(Now(), buf.Length, rd.final, delim);
      Sliced(Now(), buf.Length, rd.final, delim);
      var s: nat := 0;
      while true
        invariant Valid() && s <= w - r && delim !in buf[r..r + s]
        invariant Slice(Now(), buf.Length, rd.final, delim) == x
        decreases err.None?, buf.Length - (w - r)
      {
        ghost var v := Now();
        var found;
        found, line, e := SliceHeld(s, delim);
        if found {
          return;
        }
        s := w - r;
        SliceOn(v, buf.Length, rd.final, delim);
        Fill();
        assert buf[r..r + s] == buf[..w][..s] == v.data;
      }
    }

    /** ReadLine gives a line or an error, never both. When fill has given up on a silent
        source and some data waits, the complaint is dropped: the data, a piece without a
        newline, is passed off as the line, which is right only when nothing is unread. */
    method ReadLine() returns (line: Bytes, isPrefix: bool, e: Option<Error>, ghost dropped: bool)
      requires Valid()
      modifies this, buf, rd
      ensures Valid()
      ensures dropped <==> Stalls(old(Now()), buf.Length, rd.final)
      ensures e.Some? ==> line == [] && !isPrefix && !dropped && Unread() == old(Unread()) && Ends(e.value)
      ensures e == Some(rd.final) ==> Unread() == []
      ensures dropped ==>
        e.None? && !isPrefix && line != [] && NL !in line && old(Unread()) == line + Unread()
      ensures dropped ==> (line, Some(ErrNoProgress), Now()) == Slice(old(Now()), buf.Length, rd.final, NL)
      ensures dropped ==> (line == FirstLine(old(Unread())) <==>
        Unread() == [] || (FirstLine(Unread()) == [] && !PartsCRNL(line, Unread())))
      ensures e.None? ==> (Fragment(old(Unread()), line, isPrefix, Unread()) <==> !dropped || Unread() == [])
      ensures Patient(old(Now())) ==> !dropped && e != Some(ErrNoProgress) && Patient(Now())
    {
      hide IndexByte, DropCR, FirstLine, AfterLine, Slice, Stalls, Talkative, Fragment, PartsCRNL;
      StallsWithData(Now(), buf.Length, rd.final);
      if Patient(Now()) {
        TalkativeNeverStalls(Now(), buf.Length, rd.final, NL);
      }
      line, e := ReadSlice(NL);
      dropped := e == Some(ErrNoProgress) && line != [];
      ghost var stream := line + Unread();
      if e == Some(ErrBufferFull) {
        if |line| > 0 && line[|line| - 1] == CR {
          LastApart(line, Unread());
          PutBack();
          line := line[..|line| - 1];
        }
        FullPiece(line, Unread());
        return line, true, None, dropped;
      }
      if |line| == 0 {
        return [], false, e, dropped;
      }
      LastPiece(line, Unread());
      DropCRBefore(line);
      e := None;
      if line[|line| - 1] == NL {
        var drop := 1;
        if |line| > 1 && line[|line| - 2] == CR {
          drop := 2;
        }
        line := line[..|line| - drop];
      }
      isPrefix := false;
    }

    /** collectFragments: full buffers, then the piece that ends in delim or ends the stream. */
    method CollectFragments(delim: Byte) returns (full: seq<Bytes>, frag: Bytes, total: nat, e: Option<Error>)
      requires Valid()
      modifies this, buf, rd
      ensures Valid() && old(Unread()) == Flat(full) + frag + Unread() && total == |Flat(full)| + |frag|
      ensures e.None? ==> frag != [] && IndexByte(Flat(full) + frag, delim) == total - 1
      ensures e.Some? ==> delim !in Flat(full) + frag && Ends(e.value) && r == w
    {
      hide IndexByte;
      ghost var stream := Unread();
      full, total := [], 0;
      while true
        invariant Valid() && stream == Flat(full) + Unread()
        invariant delim !in Flat(full) && total == |Flat(full)|
        decreases |Unread()|
      {
        ghost var unread := Unread();
        frag, e := ReadSlice(delim);
        FlatSnoc(full, frag);
        Delivered(Flat(full), unread, |frag|);
        if e.None? {
          Joined(Flat(full), frag, delim);
          total := total + |frag|;
          return;
        }
        if e.value != ErrBufferFull {
          total := total + |frag|;
          return;
        }
        full := full + [frag];
        total := total + |frag|;
      }
    }

    /** ReadBytes gives everything up to and including the first delim, however many
        buffers that takes, or all that is left and an error. */
    method ReadBytes(delim: Byte) returns (data: Bytes, e: Option<Error>)
      requires Valid()
      modifies this, buf, rd
      ensures Valid() && old(Unread()) == data + Unread()
      ensures e.None? ==> data == old(Unread())[..IndexByte(old(Unread()), delim) + 1] && delim in data
      ensures e.Some? ==> delim !in data && Ends(e.value) && r == w
    {
      hide IndexByte;
      var full, frag, total, err := CollectFragments(delim);
      e := err;
      data := Assemble(full, frag, total);
      if e.None? {
        FirstOf(data, Unread(), delim);
      }
    }

    /** b.r--: the last byte read is unread again. */
    method PutBack()
      requires Valid() && r > 0
      modifies this`r
      ensures Valid() && Unread() == [buf[old(r) - 1]] + old(Unread())
    {
      r := r - 1;
      assert buf[r..w] == [buf[r]] + buf[r + 1..w];
    }
  }

  // ----- the reads as functions -----

  /** The unread bytes in the buffer, the source behind it, and the pending error. */
  datatype View = View(data: Bytes, rest: Bytes, schedule: seq<Delivery>, err: Option<Error>)

  datatype Tried = Tried(n: nat, err: Option<Error>, schedule: seq<Delivery>)

  /** Up to i reads, until one delivers something or reports the end. */
  function Tries(i: nat, rest: Bytes, schedule: seq<Delivery>, room: nat, final: Error): (t: Tried)
    ensures t.n <= |rest| && t.n <= room
  {
    if i == 0 then Tried(0, Some(ErrNoProgress), schedule)
    else
      var d := Coming(schedule, rest);
      var n := Amount(d, rest, room);
      var e := if TellsEnd(d, rest, n) then Some(final) else None;
      if e.Some? || n > 0 then Tried(n, e, Later(schedule))
      else Tries(i - 1, rest, Later(schedule), room, final)
  }

  lemma TriesOne(i: nat, rest: Bytes, schedule: seq<Delivery>, room: nat, final: Error)
    requires i > 0
    ensures
      var d := Coming(schedule, rest);
      var n := Amount(d, rest, room);
      var e := if TellsEnd(d, rest, n) then Some(final) else None;
      Tries(i, rest, schedule, room, final) ==
        if e.Some? || n > 0 then Tried(n, e, Later(schedule)) else Tries(i - 1, rest, Later(schedule), room, final)
    ensures
      var n := Amount(Coming(schedule, rest), rest, room);
      TellsEnd(Coming(schedule, rest), rest, n) ==> rest[n..] == []
  {
  }

  lemma TriesNone(rest: Bytes, schedule: seq<Delivery>, room: nat, final: Error)
    ensures Tries(0, rest, schedule, room, final) == Tried(0, Some(ErrNoProgress), schedule)
  {
  }

  /** fill gives up exactly when the next i deliveries are all silent. */
  lemma {:induction false} GivesUp(i: nat, rest: Bytes, schedule: seq<Delivery>, room: nat, final: Error)
    requires room > 0 && final != ErrNoProgress
    ensures
      var t := Tries(i, rest, schedule, room, final);
      && (t.err == Some(ErrNoProgress) <==> |schedule| >= i && forall k :: 0 <= k < i ==> Silent(schedule[k], rest))
      && (t.err == Some(ErrNoProgress) ==> t.n == 0 && t.schedule == schedule[i..])
      && (t.err.Some? && t.err.value != ErrNoProgress ==> t.err.value == final && t.n == |rest|)
      && (t.err.None? ==> t.n > 0)
  {
    if i > 0 {
      GivesUp(i - 1, rest, Later(schedule), room, final);
      if schedule != [] {
        assert forall k :: 1 <= k < |schedule| ==> schedule[k] == Later(schedule)[k - 1];
      }
      if |schedule| >= i {
        assert Later(schedule)[i - 1..] == schedule[i..];
      }
    }
  }

  function Filled(v: View, size: nat, final: Error): (u: View)
    requires |v.data| < size
    ensures |u.data| <= size
  {
    var t := Tries(MAX_CONSECUTIVE_EMPTY_READS, v.rest, v.schedule, size - |v.data|, final);
    View(v.data + v.rest[..t.n], v.rest[t.n..], t.schedule, t.err)
  }

  lemma FilledIs(v: View, size: nat, final: Error, t: Tried)
    requires |v.data| < size && t == Tries(MAX_CONSECUTIVE_EMPTY_READS, v.rest, v.schedule, size - |v.data|, final)
    ensures Filled(v, size, final) == View(v.data + v.rest[..t.n], v.rest[t.n..], t.schedule, t.err)
    ensures (v.data + v.rest[..t.n]) + v.rest[t.n..] == v.data + v.rest
    ensures (v.data + v.rest[..t.n])[..|v.data|] == v.data
    ensures v.rest[..0] == [] && v.data + [] == v.data && v.rest[0..] == v.rest
  {
  }

  /** ReadSlice on a buffer of the given size. */
  function Slice(v: View, size: nat, final: Error, delim: Byte): (Bytes, Option<Error>, View)
    requires |v.data| <= size && final != ErrNoProgress
    decreases v.err.None?, size - |v.data|
  {
    var i := IndexByte(v.data, delim);
    if i >= 0 then (v.data[..i + 1], None, v.(data := v.data[i + 1..]))
    else if v.err.Some? then (v.data, v.err, v.(data := [], err := None))
    else if |v.data| >= size then (v.data, Some(ErrBufferFull), v.(data := []))
    else
      GivesUp(MAX_CONSECUTIVE_EMPTY_READS, v.rest, v.schedule, size - |v.data|, final);
      Slice(Filled(v, size, final), size, final, delim)
  }

  /** ReadSlice loses nothing; it gives no error exactly when the line ends in delim, and
      otherwise a full buffer or all that is left. */
  lemma {:induction false} Sliced(v: View, size: nat, final: Error, delim: Byte)
    requires |v.data| <= size && final != ErrNoProgress && final != ErrBufferFull
    requires v.err.Some? ==> (v.err.value == final && v.rest == []) || v.err.value == ErrNoProgress
    ensures
      var (line, e, u) := Slice(v, size, final, delim);
      && v.data + v.rest == line + (u.data + u.rest)
      && (if e.None? then line != [] && IndexByte(line, delim) == |line| - 1 else delim !in line && u.data == [])
      && (e == Some(ErrBufferFull) ==> |line| == size)
      && (e.Some? && e.value != ErrBufferFull ==> (e.value == final && u.rest == []) || e.value == ErrNoProgress)
    decreases v.err.None?, size - |v.data|
  {
    hide IndexByte, Filled, Slice;
    var i := IndexByte(v.data, delim);
    if i >= 0 {
      SliceFound(v, size, final, delim, i);
      IndexByteIs(v.data[..i + 1], delim, i);
      Cut(v.data, v.rest, i + 1);
    } else if v.err.Some? || |v.data| >= size {
      SliceStops(v, size, final, delim);
      Cut(v.data, v.rest, |v.data|);
    } else {
      SliceOn(v, size, final, delim);
      FilledIs(v, size, final, Tries(MAX_CONSECUTIVE_EMPTY_READS, v.rest, v.schedule, size - |v.data|, final));
      GivesUp(MAX_CONSECUTIVE_EMPTY_READS, v.rest, v.schedule, size - |v.data|, final);
      var u := Filled(v, size, final);
      Delivered(v.data, v.rest, |u.data| - |v.data|);
      Sliced(u, size, final, delim);
    }
  }

  lemma Cut(data: Bytes, rest: Bytes, k: nat)
    requires k <= |data|
    ensures data + rest == data[..k] + (data[k..] + rest)
    ensures data + rest == data + ([] + rest)
  {
  }

  lemma SliceFound(v: View, size: nat, final: Error, delim: Byte, i: nat)
    requires |v.data| <= size && final != ErrNoProgress && IndexByte(v.data, delim) == i
    ensures Slice(v, size, final, delim) == (v.data[..i + 1], None, v.(data := v.data[i + 1..]))
  {
  }

  lemma SliceStops(v: View, size: nat, final: Error, delim: Byte)
    requires |v.data| <= size && final != ErrNoProgress && delim !in v.data
    requires v.err.Some? || |v.data| == size
    ensures Slice(v, size, final, delim) ==
      (v.data, if v.err.Some? then v.err else Some(ErrBufferFull), v.(data := [], err := None))
  {
  }

  lemma SliceOn(v: View, size: nat, final: Error, delim: Byte)
    requires |v.data| < size && final != ErrNoProgress && delim !in v.data && v.err.None?
    ensures |Filled(v, size, final).data| <= size
    ensures Slice(v, size, final, delim) == Slice(Filled(v, size, final), size, final, delim)
  {
  }

  /** The next 100 deliveries hand out nothing and say nothing. */
  predicate FallsSilent(schedule: seq<Delivery>, rest: Bytes) {
    |schedule| >= MAX_CONSECUTIVE_EMPTY_READS
    && forall k :: 0 <= k < MAX_CONSECUTIVE_EMPTY_READS ==> Silent(schedule[k], rest)
  }

  /** The source falls silent, now or after some more deliveries, while a piece of a line
      without its end waits in a buffer with room left. */
  predicate Stalls(v: View, size: nat, final: Error)
    requires |v.data| <= size && final != ErrNoProgress
    decreases v.err.None?, size - |v.data|
  {
    && NL !in v.data
    && if v.err.Some? then v.err.value == ErrNoProgress && v.data != []
       else
         && |v.data| < size
         && if FallsSilent(v.schedule, v.rest) then v.data != []
            else
              GivesUp(MAX_CONSECUTIVE_EMPTY_READS, v.rest, v.schedule, size - |v.data|, final);
              Stalls(Filled(v, size, final), size, final)
  }

  /** ReadSlice reports io.ErrNoProgress together with data exactly when the source stalls. */
  lemma {:induction false} StallsWithData(v: View, size: nat, final: Error)
    requires |v.data| <= size && final != ErrNoProgress
    ensures Stalls(v, size, final) <==>
      Slice(v, size, final, NL).1 == Some(ErrNoProgress) && Slice(v, size, final, NL).0 != []
    decreases v.err.None?, size - |v.data|
  {
    hide IndexByte, Filled, Slice;
    var i := IndexByte(v.data, NL);
    if i >= 0 {
      SliceFound(v, size, final, NL, i);
    } else if v.err.Some? || |v.data| >= size {
      SliceStops(v, size, final, NL);
    } else {
      SliceOn(v, size, final, NL);
      var u, room := Filled(v, size, final), size - |v.data|;
      FilledIs(v, size, final, Tries(MAX_CONSECUTIVE_EMPTY_READS, v.rest, v.schedule, room, final));
      GivesUp(MAX_CONSECUTIVE_EMPTY_READS, v.rest, v.schedule, room, final);
      if FallsSilent(v.schedule, v.rest) {
        SliceStops(u, size, final, NL);
      } else {
        StallsWithData(u, size, final);
      }
    }
  }

  /** "ab\n" from a source that hands out one byte and then nothing for 100 reads: "a" is
      reported as the line, and "b" as the next. */
  lemma SilentSource()
    ensures Stalls(View([], [97, 98, NL], OneThenSilence(), None), MIN_READ_BUFFER_SIZE, EOF)
    ensures Slice(View([], [97, 98, NL], OneThenSilence(), None), MIN_READ_BUFFER_SIZE, EOF, NL) ==
      ([97], Some(ErrNoProgress), View([], [98, NL], [], None))
  {
    hide Slice, Filled, Stalls, Tries;
    var s := OneThenSilence();
    var v := View([], [97, 98, NL], s, None);
    TriesOne(MAX_CONSECUTIVE_EMPTY_READS, v.rest, s, MIN_READ_BUFFER_SIZE, EOF);
    FilledIs(v, MIN_READ_BUFFER_SIZE, EOF, Tried(1, None, Later(s)));
    SliceOn(v, MIN_READ_BUFFER_SIZE, EOF, NL);
    var u := View([97], [98, NL], Later(s), None);
    assert Filled(v, MIN_READ_BUFFER_SIZE, EOF) == u;
    GivesUp(MAX_CONSECUTIVE_EMPTY_READS, u.rest, u.schedule, MIN_READ_BUFFER_SIZE - 1, EOF);
    assert u.schedule[MAX_CONSECUTIVE_EMPTY_READS..] == [];
    FilledIs(u, MIN_READ_BUFFER_SIZE, EOF, Tried(0, Some(ErrNoProgress), []));
    SliceOn(u, MIN_READ_BUFFER_SIZE, EOF, NL);
    SliceStops(View([97], [98, NL], [], Some(ErrNoProgress)), MIN_READ_BUFFER_SIZE, EOF, NL);
    StallsWithData(v, MIN_READ_BUFFER_SIZE, EOF);
  }

  function OneThenSilence(): seq<Delivery> {
    [Delivery(1, false)] + seq(MAX_CONSECUTIVE_EMPTY_READS, _ => Delivery(0, false))
  }

  lemma FirstIsWhole()
    ensures FirstLine([97, 98, NL]) == [97, 98]
  {
    hide IndexByte;
    IndexByteIs([97, 98, NL], NL, 2);
  }

  /** The same run through the reader. */
  method PieceAsLine() returns (line: Bytes, isPrefix: bool, e: Option<Error>, ghost dropped: bool, ghost unread: Bytes)
    ensures line == [97] && !isPrefix && e.None?
    ensures dropped && unread == [98, NL] && FirstLine([97, 98, NL]) == [97, 98]
  {
    hide Slice, Stalls, FirstLine, AfterLine, IndexByte, DropCR, OneThenSilence;
    FirstIsWhole();
    var rd := new Source([97, 98, NL], OneThenSilence(), EOF);
    var b := new Reader(rd, MIN_READ_BUFFER_SIZE);
    SilentSource();
    line, isPrefix, e, dropped := b.ReadLine();
    unread := b.Unread();
  }

  /** The source never stays silent for 100 reads in a row, and there was no complaint yet. */
  ghost predicate Patient(v: View) {
    Talkative(v.schedule, MAX_CONSECUTIVE_EMPTY_READS) && v.err != Some(ErrNoProgress)
  }

  /** A source that never stays silent for 100 reads never makes ReadLine drop a complaint. */
  lemma {:induction false} TalkativeNeverStalls(v: View, size: nat, final: Error, delim: Byte)
    requires |v.data| <= size && final != ErrNoProgress && Patient(v)
    ensures Slice(v, size, final, delim).1 != Some(ErrNoProgress) && Patient(Slice(v, size, final, delim).2)
    decreases v.err.None?, size - |v.data|
  {
    hide IndexByte, Talkative;
    if IndexByte(v.data, delim) < 0 && v.err.None? && |v.data| < size {
      TalkativeFill(MAX_CONSECUTIVE_EMPTY_READS, v.rest, v.schedule, size - |v.data|, final);
      TalkativeProgress(v.rest, v.schedule, size - |v.data|, final);
      TalkativeNeverStalls(Filled(v, size, final), size, final, delim);
    }
  }

  lemma TalkativeProgress(rest: Bytes, schedule: seq<Delivery>, room: nat, final: Error)
    requires room > 0 && final != ErrNoProgress && Talkative(schedule, MAX_CONSECUTIVE_EMPTY_READS)
    ensures
      var t := Tries(MAX_CONSECUTIVE_EMPTY_READS, rest, schedule, room, final);
      t.err != Some(ErrNoProgress) && (t.err.None? ==> t.n > 0)
  {
    GivesUp(MAX_CONSECUTIVE_EMPTY_READS, rest, schedule, room, final);
    hide Talkative, Tries;
    if |schedule| >= MAX_CONSECUTIVE_EMPTY_READS
       && forall k :: 0 <= k < MAX_CONSECUTIVE_EMPTY_READS ==> Silent(schedule[k], rest) {
      TalkativeNotSilent(schedule, MAX_CONSECUTIVE_EMPTY_READS, rest);
    }
  }

  lemma {:induction false} TalkativeFill(i: nat, rest: Bytes, schedule: seq<Delivery>, room: nat, final: Error)
    requires Talkative(schedule, MAX_CONSECUTIVE_EMPTY_READS)
    ensures Talkative(Tries(i, rest, schedule, room, final).schedule, MAX_CONSECUTIVE_EMPTY_READS)
  {
    hide Talkative;
    if i > 0 {
      TalkativeLater(schedule, MAX_CONSECUTIVE_EMPTY_READS);
      TalkativeFill(i - 1, rest, Later(schedule), room, final);
    }
  }

  // ----- full buffers -----

  function Flat(pieces: seq<Bytes>): Bytes {
    if |pieces| == 0 then [] else Flat(pieces[..|pieces| - 1]) + pieces[|pieces| - 1]
  }

  lemma FlatSnoc(pieces: seq<Bytes>, p: Bytes)
    ensures Flat(pieces + [p]) == Flat(pieces) + p
  {
    assert (pieces + [p])[..|pieces|] == pieces;
  }

  lemma {:induction false} FlatPrefix(pieces: seq<Bytes>, i: nat)
    requires i <= |pieces|
    ensures |Flat(pieces[..i])| <= |Flat(pieces)|
  {
    if i == |pieces| {
      assert pieces[..i] == pieces;
    } else {
      FlatPrefix(pieces[..|pieces| - 1], i);
      assert pieces[..|pieces| - 1][..i] == pieces[..i];
    }
  }

  /** Copy full pieces and fragment into a new buffer of the right size. */
  method Assemble(full: seq<Bytes>, frag: Bytes, total: nat) returns (data: Bytes)
    requires total == |Flat(full)| + |frag|
    ensures data == Flat(full) + frag
  {
    var all := new Byte[total](_ => 0);
    var n := 0;
    for i := 0 to |full|
      invariant n == |Flat(full[..i])| <= total && all[..n] == Flat(full[..i])
    {
      FlatPrefix(full, i + 1);
      assert full[..i + 1] == full[..i] + [full[i]];
      FlatSnoc(full[..i], full[i]);
      CopyInto(all, n, full[i]);
      n := n + |full[i]|;
    }
    assert full[..|full|] == full;
    CopyInto(all, n, frag);
    data := all[..];
  }

  lemma Joined(f: Bytes, g: Bytes, delim: Byte)
    requires delim !in f && g != [] && IndexByte(g, delim) == |g| - 1
    ensures IndexByte(f + g, delim) == |f| + |g| - 1
  {
    hide IndexByte;
    assert forall k :: 0 <= k < |f| ==> (f + g)[k] == f[k];
    IndexByteIs(f + g, delim, |f| + |g| - 1);
  }

  lemma FirstOf(data: Bytes, rest: Bytes, delim: Byte)
    requires data != [] && IndexByte(data, delim) == |data| - 1
    ensures IndexByte(data + rest, delim) == |data| - 1 && delim in data
    ensures (data + rest)[..|data|] == data
  {
    hide IndexByte;
    assert forall k :: 0 <= k < |data| ==> (data + rest)[k] == data[k];
    IndexByteIs(data + rest, delim, |data| - 1);
  }

  // ----- whole lines -----

  /** A fragment without an error: a piece of the first line that does not part "\r" from
      "\n", or the rest of that line. */
  ghost predicate Fragment(stream: Bytes, line: Bytes, isPrefix: bool, unread: Bytes) {
    if isPrefix then
      line != [] && NL !in line && !PartsCRNL(line, unread) && stream == line + unread
    else
      NextIs(stream, line, unread)
  }

  lemma FullPiece(line: Bytes, unread: Bytes)
    requires line != [] && NL !in line && (unread != [] && unread[0] == NL ==> line[|line| - 1] != CR)
    ensures Fragment(line + unread, line, true, unread)
  {
  }

  /** The piece before an end: its line, without "\n" or "\r\n", or without its rest. */
  lemma LastPiece(line: Bytes, unread: Bytes)
    requires line != []
    ensures IndexByte(line, NL) == |line| - 1 ==> Fragment(line + unread, DropCR(line[..|line| - 1]), false, unread)
    ensures NL !in line ==> (Fragment(line + unread, line, false, unread) <==> unread == [])
    ensures NL !in line ==>
      (line == FirstLine(line + unread) <==> unread == [] || (FirstLine(unread) == [] && !PartsCRNL(line, unread)))
  {
    hide IndexByte, DropCR, FirstLine, AfterLine, PartsCRNL;
    WholeLine(line, unread);
    if NL !in line {
      PieceIsLine(line, unread);
      assert unread == [] ==> line + unread == line;
    }
  }

  /** line is the first line of the stream, without its end, and unread what follows. */
  predicate NextIs(stream: Bytes, line: Bytes, unread: Bytes) {
    stream != [] && line == FirstLine(stream) && unread == AfterLine(stream)
  }

  /** Repeated ReadLine up to the first isPrefix == false: one whole line of the stream,
      wherever the buffer and the source happened to cut it, unless a complaint about a
      silent source was dropped. If one was, what comes is a piece of the line. */
  method NextLine(b: Reader) returns (line: Bytes, e: Option<Error>, ghost dropped: bool)
    requires b.Valid()
    modifies b, b.buf, b.rd
    ensures b.Valid()
    ensures e.None? ==> (NextIs(old(b.Unread()), line, b.Unread()) <==> !dropped || b.Unread() == [])
    ensures e.Some? || dropped ==> NL !in line && old(b.Unread()) == line + b.Unread()
    ensures dropped ==> e.None? && line != []
    ensures e.Some? ==> b.Ends(e.value) && (e.value == b.rd.final ==> old(b.Unread()) == [])
    ensures Patient(old(b.Now())) ==> !dropped && e != Some(ErrNoProgress) && Patient(b.Now())
  {
    hide FirstLine, AfterLine, Slice, Talkative;
    ghost var stream := b.Unread();
    line := [];
    while true
      invariant b.Valid() && stream == line + b.Unread()
      invariant Patient(old(b.Now())) ==> Patient(b.Now())
      invariant NL !in line && !PartsCRNL(line, b.Unread())
      decreases |b.Unread()|
    {
      ghost var rest := b.Unread();
      var frag, isPrefix, err;
      frag, isPrefix, err, dropped := b.ReadLine();
      if err.Some? {
        AtEnd(line);
        e := if line != [] && err.value == b.rd.final then None else err;
        return;
      }
      CutPiece(line, rest);
      Extend(line, frag, b.Unread());
      if dropped {
        PieceIsLine(line + frag, b.Unread());
      }
      line := line + frag;
      if !isPrefix {
        return line, None, dropped;
      }
    }
  }

  lemma LastApart(line: Bytes, rest: Bytes)
    requires line != []
    ensures line + rest == line[..|line| - 1] + ([line[|line| - 1]] + rest)
  {
  }

  lemma AtEnd(line: Bytes)
    ensures line + [] == line
    ensures line != [] && NL !in line ==> NextIs(line, line, [])
  {
    if line != [] {
      WholeLine(line, []);
    }
  }

  lemma Extend(line: Bytes, frag: Bytes, rest: Bytes)
    ensures (line + frag) + rest == line + (frag + rest)
  {
  }

  /** Every line of the stream, in order, whatever the buffer size and the chunking, as long
      as no complaint was dropped and only the end of the stream stopped the loop. */
  method ReadAllLines(b: Reader) returns (lines: seq<Bytes>, e: Error, ghost dropped: bool)
    requires b.Valid()
    modifies b, b.buf, b.rd
    ensures !dropped && e == b.rd.final ==> lines == AllLines(old(b.Unread()))
    ensures e == b.rd.final || e == ErrNoProgress
    ensures Patient(old(b.Now())) ==> !dropped && e == b.rd.final
  {
    hide FirstLine, AfterLine, AllLines, Talkative;
    lines, dropped := [], false;
    ghost var stream := b.Unread();
    while true
      invariant b.Valid() && (!dropped ==> lines + AllLines(b.Unread()) == AllLines(stream))
      invariant Patient(old(b.Now())) ==> !dropped && Patient(b.Now())
      decreases |b.Unread()|
    {
      ghost var rest := b.Unread();
      ghost var gaveUp;
      var line, err;
      line, err, gaveUp := NextLine(b);
      if err.Some? {
        NoMoreLines(lines);
        return lines, err.value, dropped;
      }
      if gaveUp {
        assert |b.Unread()| < |rest|;
      } else {
        NextOfLines(lines, rest);
      }
      lines, dropped := lines + [line], dropped || gaveUp;
    }
  }

  lemma NoMoreLines(lines: seq<Bytes>)
    ensures lines + AllLines([]) == lines
  {
  }

  lemma Delivered(kept: Bytes, stream: Bytes, n: nat)
    requires n <= |stream|
    ensures (kept + stream[..n]) + stream[n..] == kept + stream
  {
  }

  /** Searching the part not scanned before finds the first delimiter of the whole. */
  lemma Searched(b: Bytes, s: nat, delim: Byte)
    requires s <= |b| && delim !in b[..s]
    ensures
      var i := IndexByte(b[s..], delim);
      if i < 0 then delim !in b else IndexByte(b[..s + i + 1], delim) == s + i
  {
    hide IndexByte;
    var i := IndexByte(b[s..], delim);
    assert forall k :: 0 <= k < s ==> b[k] == b[..s][k];
    assert forall k :: s <= k < |b| ==> b[k] == b[s..][k - s];
    if i >= 0 {
      IndexByteIs(b[..s + i + 1], delim, s + i);
    }
  }
}
