/**
 The archive writer of utils/mkinitrd.c: header fields, names, data and padding appended to an
 output file.
 */
module CpioWriter {
  import opened Arith
  import opened CString
  import opened Cpio

  const CHUNK := 4096

  datatype File = File(name: seq<byte>, mode: nat, contents: seq<byte>)

  function Field(v: nat): (s: seq<byte>)
    ensures |s| == 8
  {
    HexField(v, 8)
  }

  /** The fields before the file size: magic, inode, mode, owner, links, time. */
  function HeaderStart(mode: nat): (s: seq<byte>)
    ensures |s| == FILESIZE
  {
    Magic() + Field(0) + Field(mode) + Field(0) + Field(0) + Field(1) + Field(0)
  }

  /** The device fields between the file size and the name size. */
  function Devices(): (s: seq<byte>)
    ensures |s| == 32
  {
    Field(0) + Field(0) + Field(0) + Field(0)
  }

  function HeaderBytes(mode: nat, fsize: nat, nameLen: nat): (s: seq<byte>)
    ensures |s| == HEADER
  {
    HeaderStart(mode) + Field(fsize) + Devices() + Field(nameLen) + Field(0)
  }

  function PadLen(n: nat): (p: nat)
    ensures p < 4 && (n + p) % 4 == 0
  {
    (4 - n % 4) % 4
  }

  function Pad(n: nat): (s: seq<byte>)
    ensures |s| == PadLen(n) && forall i :: 0 <= i < |s| ==> s[i] == 0
  {
    seq(PadLen(n), i => 0)
  }

  function NameRecord(name: seq<byte>, mode: nat, fsize: nat): seq<byte> {
    HeaderBytes(mode, fsize, |name| + 1) + name + [0] + Pad(HEADER + |name| + 1)
  }

  /** The part of the contents that is stored: the size is a 32-bit value. */
  function Stored(f: File): (s: seq<byte>)
    ensures |s| == |f.contents| % UINT
  {
    f.contents[..|f.contents| % UINT]
  }

  function Record(f: File): seq<byte> {
    NameRecord(f.name, f.mode, |Stored(f)|) + Stored(f) + Pad(|Stored(f)|)
  }

  function Records(files: seq<File>): seq<byte> {
    if files == [] then [] else Records(files[..|files| - 1]) + Record(files[|files| - 1])
  }

  function Archive(files: seq<File>): seq<byte> {
    Records(files) + NameRecord(Trailer(), 0, 0)
  }

  // ----------------------------------------------------------------- writing

  class Output {
    var bytes: seq<byte>

    constructor ()
      ensures bytes == []
    {
      bytes := [];
    }

    method Write(data: seq<byte>)
      modifies this
      ensures bytes == old(bytes) + data
    {
      bytes := bytes + data;
    }
  }

  /** Stores the digits of a value, highest first. */
  method SetField(header: array<byte>, at: nat, val: nat)
    requires at + 8 <= header.Length
    modifies header
    ensures header[..at + 8] == old(header[..at]) + Field(val)
    ensures header[at + 8..] == old(header[at + 8..])
  {
    var i := 8;
    while i > 0
      invariant 0 <= i <= 8
      invariant header[..at] == old(header[..at]) && header[at + 8..] == old(header[at + 8..])
      invariant forall k :: 0 <= k < 8 - i ==> header[at + k] == Field(val)[k]
    {
      i := i - 1;
      HexFieldAt(val, 8, 7 - i);
      header[at + 7 - i] := Hex(val / Pow16(i) % 16);
    }
    assert header[at..at + 8] == Field(val);
    assert header[..at + 8] == header[..at] + header[at..at + 8];
  }

  /** The header with its fields set one by one in their order. */
  method FillHeader(mode: nat, fsize: nat, nameLen: nat) returns (header: array<byte>)
    ensures fresh(header) && header[..] == HeaderBytes(mode, fsize, nameLen)
  {
    hide Field, Magic;
    header := new byte[HEADER];
    forall i | 0 <= i < 6 {
      header[i] := Magic()[i];
    }
    assert header[..6] == Magic();
    SetField(header, 6, 0);
    SetField(header, 14, mode);
    SetField(header, 22, 0);
    SetField(header, 30, 0);
    SetField(header, 38, 1);
    SetField(header, 46, 0);
    assert header[..54] == HeaderStart(mode);
    SetField(header, 54, fsize);
    ghost var start := header[..62];
    SetField(header, 62, 0);
    SetField(header, 70, 0);
    SetField(header, 78, 0);
    SetField(header, 86, 0);
    assert header[..94] == start + Devices();
    SetField(header, 94, nameLen);
    SetField(header, 102, 0);
    assert header[..] == header[..110];
  }

  /** Header, name with its NUL, padding. */
  method WriteHeader(out: Output, name: seq<byte>, mode: nat, fsize: nat)
    modifies out
    ensures out.bytes == old(out.bytes) + NameRecord(name, mode, fsize)
  {
    hide HeaderBytes;
    var len := |name| + 1;
    var header := FillHeader(mode, fsize, len);
    out.Write(header[..]);
    out.Write(name + [0]);
    out.Write(Pad(HEADER + len));
  }

  /** The contents a chunk at a time, then padding. */
  method CopyData(out: Output, contents: seq<byte>)
    modifies out
    ensures out.bytes == old(out.bytes) + (contents + Pad(|contents|))
  {
    var remaining := |contents|;
    while remaining > 0
      invariant 0 <= remaining <= |contents|
      invariant out.bytes == old(out.bytes) + contents[..|contents| - remaining]
    {
      var done := |contents| - remaining;
      var r := if remaining < CHUNK then remaining else CHUNK;
      out.Write(contents[done..done + r]);
      assert contents[..done] + contents[done..done + r] == contents[..done + r];
      remaining := remaining - r;
    }
    assert contents[..|contents|] == contents;
    out.Write(Pad(|contents|));
  }

  /** Every file in turn, then the trailer. */
  method WriteArchive(files: seq<File>) returns (out: Output)
    ensures fresh(out) && out.bytes == Archive(files)
  {
    hide NameRecord, Pad;
    out := new Output();
    for i := 0 to |files|
      invariant out.bytes == Records(files[..i])
    {
      var f := files[i];
      var fsize := |f.contents| % UINT;
      WriteHeader(out, f.name, f.mode, fsize);
      CopyData(out, f.contents[..fsize]);
      assert files[..i + 1][..i] == files[..i];
    }
    assert files[..|files|] == files;
    WriteHeader(out, Trailer(), 0, 0);
  }
}
