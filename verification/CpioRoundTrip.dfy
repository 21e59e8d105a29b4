/**
 Extracting an archive written by utils/mkinitrd.c calls the handler with exactly the files put in.
 */
module CpioRoundTrip {
  import opened Arith
  import opened CString
  import opened Cpio
  import opened CpioWriter

  /** A C string whose size, with its NUL, is a 32-bit value. */
  ghost predicate Nameable(name: seq<byte>) {
    0 !in name && |name| + 1 < UINT
  }

  ghost predicate AllNameable(files: seq<File>) {
    forall i :: 0 <= i < |files| ==> Nameable(files[i].name)
  }

  lemma AlignPads(n: nat)
    requires n + 3 < LONG
    ensures Align(n) == n + PadLen(n)
  {}

  function DataAt(name: seq<byte>): (n: nat)
    requires |name| + 1 < UINT
    ensures n == HEADER + |name| + 1 + PadLen(HEADER + |name| + 1)
  {
    AlignPads(HEADER + |name| + 1);
    Align(HEADER + |name| + 1)
  }

  function CallOf(f: File, pos: nat): Call
    requires |f.name| + 1 < UINT
  {
    Call(pos + HEADER, pos + DataAt(f.name), |Stored(f)|)
  }

  /** The pieces of a record in memory. */
  lemma {:induction false} RecordLayout(mem: Memory, pos: nat, name: seq<byte>, mode: nat, fsize: nat)
    requires At(mem, pos, NameRecord(name, mode, fsize))
    ensures At(mem, pos, HeaderBytes(mode, fsize, |name| + 1))
    ensures At(mem, pos + HEADER, name + [0])
    ensures |NameRecord(name, mode, fsize)| == HEADER + |name| + 1 + PadLen(HEADER + |name| + 1)
  {
    hide HeaderBytes, Pad;
    var h, p := HeaderBytes(mode, fsize, |name| + 1), Pad(HEADER + |name| + 1);
    assert NameRecord(name, mode, fsize) == h + ((name + [0]) + p);
    AtConcat(mem, pos, h, (name + [0]) + p);
    AtConcat(mem, pos + HEADER, name + [0], p);
  }

  lemma {:induction false} ValueAt(mem: Memory, pos: nat, v: nat)
    requires At(mem, pos, Field(v)) && v < UINT
    ensures Value(mem, pos) == v
  {
    hide HexField, StrToUl;
    assert Read(mem, pos, 8) == Field(v);
    FieldReads(v);
  }

  lemma {:induction false} StartsWithMagic(mem: Memory, pos: nat, mode: nat)
    requires At(mem, pos, HeaderStart(mode))
    ensures At(mem, pos, Magic())
  {
    hide Field;
    var rest := Field(0) + Field(mode) + Field(0) + Field(0) + Field(1) + Field(0);
    assert HeaderStart(mode) == Magic() + rest;
    AtConcat(mem, pos, Magic(), rest);
  }

  /** The header's magic and sizes are read back. */
  lemma {:induction false} HeaderReads(mem: Memory, pos: nat, mode: nat, fsize: nat, nameLen: nat)
    requires At(mem, pos, HeaderBytes(mode, fsize, nameLen)) && fsize < UINT && nameLen < UINT
    ensures At(mem, pos, Magic())
    ensures Value(mem, pos + FILESIZE) == fsize && Value(mem, pos + NAMESIZE) == nameLen
  {
    hide Field, HeaderStart, Devices, Value;
    var a, b, c, d := HeaderStart(mode), Field(fsize), Devices(), Field(nameLen);
    assert HeaderBytes(mode, fsize, nameLen) == a + (b + (c + (d + Field(0))));
    AtConcat(mem, pos, a, b + (c + (d + Field(0))));
    AtConcat(mem, pos + 54, b, c + (d + Field(0)));
    AtConcat(mem, pos + 62, c, d + Field(0));
    AtConcat(mem, pos + 94, d, Field(0));
    ValueAt(mem, pos + 54, fsize);
    ValueAt(mem, pos + 94, nameLen);
    StartsWithMagic(mem, pos, mode);
  }

  lemma {:induction false} FirstChar(mem: Memory, pos: nat, a: seq<byte>)
    requires 0 !in a && At(mem, pos, a + [0])
    ensures mem(pos) == 0 <==> a == []
    ensures a != [] ==> mem(pos) == a[0] && 0 !in a[1..] && At(mem, pos + 1, a[1..] + [0])
  {
    assert mem(pos + 0) == (a + [0])[0];
    if a != [] {
      assert a[0] in a && a + [0] == [a[0]] + (a[1..] + [0]);
      AtConcat(mem, pos, [a[0]], a[1..] + [0]);
    }
  }

  /** Two C strings at one place are the same string. */
  lemma {:induction false} SameString(mem: Memory, pos: nat, a: seq<byte>, b: seq<byte>)
    requires 0 !in a && 0 !in b && At(mem, pos, a + [0]) && At(mem, pos, b + [0])
    ensures a == b
    decreases |a|
  {
    hide At;
    FirstChar(mem, pos, a);
    FirstChar(mem, pos, b);
    if a == [] {
    } else {
      SameString(mem, pos + 1, a[1..], b[1..]);
      assert a == [a[0]] + a[1..] && b == [b[0]] + b[1..];
    }
  }

  lemma {:induction false} NoPadding(mem: Memory, pos: nat, len: nat)
    requires At(mem, pos, Magic())
    ensures SkipPadding(mem, pos, len) == (pos, len)
  {
    assert mem(pos + 0) == Magic()[0];
  }

  /** The pieces of a whole record: header and name, then contents and padding. */
  lemma {:induction false} RecordParts(mem: Memory, pos: nat, f: File)
    requires At(mem, pos, Record(f)) && |f.name| + 1 < UINT
    ensures At(mem, pos, NameRecord(f.name, f.mode, |Stored(f)|))
    ensures At(mem, pos + DataAt(f.name), Stored(f))
    ensures |Record(f)| == DataAt(f.name) + |Stored(f)| + PadLen(|Stored(f)|)
  {
    hide HeaderBytes, At, NameRecord;
    var c := Stored(f);
    var nr := NameRecord(f.name, f.mode, |c|);
    assert Record(f) == nr + (c + Pad(|c|));
    AtConcat(mem, pos, nr, c + Pad(|c|));
    RecordLayout(mem, pos, f.name, f.mode, |c|);
    AtConcat(mem, pos + |nr|, c, Pad(|c|));
  }

  lemma {:induction false} TrailerName(mem: Memory, pos: nat, name: seq<byte>)
    requires At(mem, pos, name + [0]) && Nameable(name)
    ensures IsTrailer(mem, pos) <==> name == Trailer()
  {
    hide At;
    if IsTrailer(mem, pos) {
      SameString(mem, pos, name, Trailer());
    }
  }

  lemma PadsAlike(start: nat, size: nat)
    requires start % 4 == 0
    ensures PadLen(start + size) == PadLen(size)
  {}

  lemma {:induction false} MemberSize(n: nat, size: nat, len: nat, record: nat)
    requires n < UINT && size < UINT && record <= len
    requires record == HEADER + n + PadLen(HEADER + n) + size + PadLen(size)
    ensures (HEADER + n) % LONG == HEADER + n
    ensures Align(HEADER + n) == HEADER + n + PadLen(HEADER + n)
    ensures var whole := Align(HEADER + n) + size;
      whole % LONG == whole && MemberLen(whole, len) == record
  {
    hide PadLen, Align;
    AlignPads(HEADER + n);
    var start := HEADER + n + PadLen(HEADER + n);
    AlignPads(start + size);
    PadsAlike(start, size);
  }

  /** A record named as the trailer ends the extraction; any other is one call, and the archive moves past it. */
  lemma {:induction false} RecordExtracts(mem: Memory, pos: nat, len: nat, f: File)
    requires At(mem, pos, Record(f)) && Nameable(f.name)
    requires |Record(f)| <= len && pos + len < LONG
    ensures Next(mem, pos, len)
         == if f.name == Trailer() then Stop(0) else Handle(CallOf(f, pos), pos, len, |Record(f)|)
    ensures At(mem, pos + HEADER, f.name + [0]) && At(mem, pos + DataAt(f.name), Stored(f))
    ensures |Record(f)| >= HEADER
  {
    hide HeaderBytes, Value, At, Pad, NameRecord, SkipPadding, PadLen, Record, Align, MemberLen, Trailer;
    hide Magic, IsTrailer;
    var n, c := |f.name| + 1, Stored(f);
    RecordParts(mem, pos, f);
    RecordLayout(mem, pos, f.name, f.mode, |c|);
    HeaderReads(mem, pos, f.mode, |c|, n);
    NoPadding(mem, pos, len);
    TrailerName(mem, pos + HEADER, f.name);
    MemberSize(n, |c|, len, |Record(f)|);
  }

  // ---------------------------------------------------------------- theorems

  /** The calls an archive stored at `pos` is meant to cause. */
  function Calls(files: seq<File>, pos: nat): (calls: seq<Call>)
    requires forall i :: 0 <= i < |files| ==> |files[i].name| + 1 < UINT
    ensures |calls| == |files|
  {
    if files == [] then [] else [CallOf(files[0], pos)] + Calls(files[1..], pos + |Record(files[0])|)
  }

  /** The files before the first one named as the trailer: all of them, exactly when none is. */
  function BeforeTrailer(files: seq<File>): (r: seq<File>)
    ensures r <= files
    ensures r == files <==> forall i :: 0 <= i < |files| ==> files[i].name != Trailer()
  {
    if files == [] || files[0].name == Trailer() then [] else [files[0]] + BeforeTrailer(files[1..])
  }

  /** Making calls in order until one fails. */
  function Handled(calls: seq<Call>, file: Handler): Extraction {
    if calls == [] then Extraction([], Returned(0))
    else if file(calls[0]) != 0 then Extraction([calls[0]], Returned(file(calls[0])))
    else
      var rest := Handled(calls[1..], file);
      Extraction([calls[0]] + rest.calls, rest.outcome)
  }

  lemma {:induction false} RecordsConcat(a: seq<File>, b: seq<File>)
    ensures Records(a + b) == Records(a) + Records(b)
  {
    hide Record;
    if b == [] {
      assert a + b == a;
    } else {
      var init, last := b[..|b| - 1], Record(b[|b| - 1]);
      assert (a + b)[..|a + b| - 1] == a + init;
      RecordsConcat(a, init);
      assert Records(a) + (Records(init) + last) == (Records(a) + Records(init)) + last;
    }
  }

  lemma {:induction false} ArchiveHead(files: seq<File>)
    requires files != []
    ensures Archive(files) == Record(files[0]) + Archive(files[1..])
  {
    hide Record, NameRecord;
    assert files == [files[0]] + files[1..];
    RecordsConcat([files[0]], files[1..]);
    assert [files[0]][..0] == [];
    assert Records([files[0]]) == Record(files[0]);
  }

  lemma {:induction false} FirstCall(files: seq<File>, pos: nat)
    requires AllNameable(files)
    ensures Calls(BeforeTrailer(files), pos) ==
      if files == [] || files[0].name == Trailer() then []
      else [CallOf(files[0], pos)] + Calls(BeforeTrailer(files[1..]), pos + |Record(files[0])|)
  {
    hide CallOf, Record, Trailer, Nameable;
    if files != [] && files[0].name != Trailer() {
      assert BeforeTrailer(files)[1..] == BeforeTrailer(files[1..]);
    }
  }

  /** What handling an archive's files comes to, for none and for a first one. */
  lemma {:induction false} HandledStep(files: seq<File>, pos: nat, file: Handler)
    requires AllNameable(files)
    ensures Handled(Calls(BeforeTrailer(files), pos), file) ==
      if files == [] || files[0].name == Trailer() then Extraction([], Returned(0))
      else
        var call := CallOf(files[0], pos);
        if file(call) != 0 then Extraction([call], Returned(file(call)))
        else
          var r := Handled(Calls(BeforeTrailer(files[1..]), pos + |Record(files[0])|), file);
          Extraction([call] + r.calls, r.outcome)
  {
    hide CallOf, Record, Trailer, BeforeTrailer, Calls;
    FirstCall(files, pos);
    var calls := Calls(BeforeTrailer(files), pos);
    if files != [] && files[0].name != Trailer() {
      assert calls[1..] == Calls(BeforeTrailer(files[1..]), pos + |Record(files[0])|);
    }
  }

  lemma {:induction false} ArchiveEnd()
    ensures Archive([]) == Record(File(Trailer(), 0, [])) && Nameable(Trailer())
  {
    hide NameRecord;
    assert Records([]) == [];
  }

  /**
   Every file before one named as the trailer is handed over in order, up to the first the handler
   refuses; so all are, for a willing handler, exactly when no file has the trailer's name.
   */
  lemma {:induction false} RoundTrip(mem: Memory, pos: nat, len: nat, files: seq<File>, file: Handler)
    requires At(mem, pos, Archive(files)) && AllNameable(files)
    requires |Archive(files)| <= len && pos + len < LONG
    ensures Extract(mem, pos, len, file) == Handled(Calls(BeforeTrailer(files), pos), file)
    decreases |files|
  {
    hide At, Record, NameRecord, Next, Extract, CallOf, Handled, Calls, BeforeTrailer, Archive, Trailer;
    ExtractStep(mem, pos, len, file);
    HandledStep(files, pos, file);
    if files == [] {
      ArchiveEnd();
      RecordExtracts(mem, pos, len, File(Trailer(), 0, []));
    } else {
      var f, rest := files[0], files[1..];
      ArchiveHead(files);
      AtConcat(mem, pos, Record(f), Archive(rest));
      RecordExtracts(mem, pos, len, f);
      RoundTrip(mem, pos + |Record(f)|, len - |Record(f)|, rest, file);
    }
  }

  /** Each call points at the file's own name and stored contents. */
  lemma {:induction false} CallsAreFiles(mem: Memory, pos: nat, files: seq<File>, i: nat)
    requires At(mem, pos, Archive(files)) && AllNameable(files) && i < |files|
    requires pos + |Archive(files)| < LONG
    ensures var c := Calls(files, pos)[i];
      && At(mem, c.name, files[i].name + [0])
      && At(mem, c.data, Stored(files[i])) && c.len == |Stored(files[i])|
    decreases |files|
  {
    hide At, Record, NameRecord, Next;
    ArchiveHead(files);
    var f, rest := files[0], files[1..];
    AtConcat(mem, pos, Record(f), Archive(rest));
    if i == 0 {
      RecordExtracts(mem, pos, |Archive(files)|, f);
    } else {
      CallsAreFiles(mem, pos + |Record(f)|, rest, i - 1);
    }
  }

  /** A willing handler sees every file and the extraction succeeds. */
  lemma {:induction false} AllHandled(calls: seq<Call>, file: Handler)
    requires forall i :: 0 <= i < |calls| ==> file(calls[i]) == 0
    ensures Handled(calls, file) == Extraction(calls, Returned(0))
  {
    if calls == [] {
    } else {
      AllHandled(calls[1..], file);
      assert calls == [calls[0]] + calls[1..];
    }
  }

  /** What is stored is the whole file exactly when its size fits the field. */
  lemma StoredWhole(f: File)
    ensures Stored(f) == f.contents <==> |f.contents| < UINT
  {}
}
