/**
 The archive reader of libnt/cpio.c, over 64-bit `size_t` and pointers, which wrap around.
 */
module Cpio {
  import opened Arith
  import opened CString

  const HEADER := 110
  const FILESIZE := 54
  const NAMESIZE := 94

  function Magic(): (s: seq<byte>)
    ensures |s| == 6
  {
    [0x30, 0x37, 0x30, 0x37, 0x30, 0x31]     // "070701"
  }

  function Trailer(): (s: seq<byte>)
    ensures |s| == 10
  {
    [0x54, 0x52, 0x41, 0x49, 0x4c, 0x45, 0x52, 0x21, 0x21, 0x21]     // "TRAILER!!!"
  }

  function Align(len: nat): (a: nat)
    requires len < LONG
    ensures a < LONG && a % 4 == 0
    ensures len + 3 < LONG ==> len <= a < len + 4
  {
    (len + 3) % LONG / 4 * 4
  }

  /** `n` bytes of memory. */
  function Read(mem: Memory, pos: nat, n: nat): (s: seq<byte>)
    ensures |s| == n && forall i :: 0 <= i < n ==> s[i] == mem(pos + i)
  {
    if n == 0 then [] else Read(mem, pos, n - 1) + [mem(pos + n - 1)]
  }

  lemma ParsedFits(s: seq<byte>)
    ensures StrToUl(s, 16) < LONG
  {}

  function Value(mem: Memory, field: nat): (v: nat)
    ensures v < LONG
  {
    ParsedFits(Read(mem, field, 8) + [0]);
    StrToUl(Read(mem, field, 8) + [0], 16)
  }

  /** A call of the file handler: where the name and the data start, and the data's length. */
  datatype Call = Call(name: nat, data: nat, len: nat)

  /** The handler's return code for a call. */
  type Handler = Call -> int

  /** `Forever` is the archive whose member length wraps to zero: it is handled again and again. */
  datatype Outcome = Returned(rc: int) | Forever

  datatype Extraction = Extraction(calls: seq<Call>, outcome: Outcome)

  /** Whether four zero bytes of padding come next. */
  predicate Padding(mem: Memory, pos: nat, len: nat) {
    len >= 4 && mem(pos) == 0 && mem(pos + 1) == 0 && mem(pos + 2) == 0 && mem(pos + 3) == 0
  }

  function SkipPadding(mem: Memory, pos: nat, len: nat): (r: (nat, nat))
    ensures r.1 <= len && r.0 + r.1 == pos + len
    decreases len
  {
    if Padding(mem, pos, len) then SkipPadding(mem, pos + 4, len - 4) else (pos, len)
  }

  /** A member: its handler call and its length in the archive, before any check against `len`. */
  function Member(mem: Memory, pos: nat): (Call, nat) {
    var nameLen, fileLen := Value(mem, pos + NAMESIZE), Value(mem, pos + FILESIZE);
    var dataAt := Align((HEADER + nameLen) % LONG);
    (Call(pos + HEADER, (pos + dataAt) % LONG, fileLen), (dataAt + fileLen) % LONG)
  }

  /** The member's length rounded up, unless it ends the archive. */
  function MemberLen(size: nat, len: nat): (n: nat)
    requires size < LONG
  {
    if size < len then Align(size) else size
  }

  ghost predicate IsTrailer(mem: Memory, name: nat) {
    At(mem, name, Trailer() + [0])
  }

  /** What one round of the loop finds: a return code, or a member and how far the archive moves. */
  datatype Step = Stop(rc: int) | Handle(call: Call, pos: nat, left: nat, n: nat)

  ghost function Next(mem: Memory, data: nat, len: nat): (s: Step)
    ensures s.Handle? ==> s.n <= s.left <= len && s.pos + s.left == data + len
  {
    var (pos, left) := SkipPadding(mem, data, len);
    if left == 0 then Stop(0)
    else if left < HEADER || !At(mem, pos, Magic()) then Stop(-1)
    else
      var (call, size) := Member(mem, pos);
      var n := MemberLen(size, left);
      if n > left then Stop(-1)
      else if IsTrailer(mem, call.name) then Stop(0)
      else Handle(call, pos, left, n)
  }

  /** The calls made and how the extraction ends. */
  ghost function Extract(mem: Memory, data: nat, len: nat, file: Handler): Extraction
    decreases len
  {
    match Next(mem, data, len)
    case Stop(rc) => Extraction([], Returned(rc))
    case Handle(call, pos, left, n) =>
      if file(call) != 0 then Extraction([call], Returned(file(call)))
      else if n == 0 then Extraction([call], Forever)
      else
        var rest := Extract(mem, pos + n, left - n, file);
        Extraction([call] + rest.calls, rest.outcome)
  }

  /** Copies the field and a NUL into a buffer and parses that. */
  method CpioValue(mem: Memory, field: nat) returns (v: nat)
    ensures v == Value(mem, field) < LONG
  {
    var buf := new byte[9];
    for i := 0 to 8
      invariant forall k :: 0 <= k < i ==> buf[k] == mem(field + k)
    {
      buf[i] := mem(field + i);
    }
    buf[8] := 0;
    assert buf[..] == Read(mem, field, 8) + [0];
    assert buf[..][8] == 0;
    v := ParseULong(buf[..], 16);
  }

  /** Byte-wise comparison against a constant string. */
  method Matches(mem: Memory, pos: nat, s: seq<byte>) returns (same: bool)
    ensures same <==> At(mem, pos, s)
  {
    for i := 0 to |s|
      invariant forall k :: 0 <= k < i ==> mem(pos + k) == s[k]
    {
      if mem(pos + i) != s[i] {
        return false;
      }
    }
    return true;
  }

  /** Skips zero words. */
  method SkipPad(mem: Memory, data: nat, len: nat) returns (pos: nat, left: nat)
    ensures (pos, left) == SkipPadding(mem, data, len)
  {
    pos, left := data, len;
    while left >= 4
      invariant SkipPadding(mem, data, len) == SkipPadding(mem, pos, left)
    {
      if mem(pos) != 0 || mem(pos + 1) != 0 || mem(pos + 2) != 0 || mem(pos + 3) != 0 {
        break;
      }
      pos, left := pos + 4, left - 4;
    }
  }

  /** One round: skip padding, check the header, parse the fields, check the length, look for the trailer. */
  method NextMember(mem: Memory, data: nat, len: nat) returns (s: Step)
    ensures s == Next(mem, data, len)
  {
    hide Value, At, SkipPadding, Trailer, Magic;
    var pos, left := SkipPad(mem, data, len);
    if left == 0 {
      return Stop(0);
    }
    if left < HEADER {
      return Stop(-1);
    }
    var magic := Matches(mem, pos, Magic());
    if !magic {
      return Stop(-1);
    }
    var nameLen := CpioValue(mem, pos + NAMESIZE);
    var dataAt := Align((HEADER + nameLen) % LONG);
    var fileLen := CpioValue(mem, pos + FILESIZE);
    var cpioLen := (dataAt + fileLen) % LONG;
    if cpioLen < left {
      cpioLen := Align(cpioLen);
    }
    if cpioLen > left {
      return Stop(-1);
    }
    var trailer := Matches(mem, pos + HEADER, Trailer() + [0]);
    if trailer {
      return Stop(0);
    }
    return Handle(Call(pos + HEADER, (pos + dataAt) % LONG, fileLen), pos, left, cpioLen);
  }

  /** The whole extraction is what was handled so far followed by the rest. */
  ghost predicate Resumes(whole: Extraction, calls: seq<Call>, rest: Extraction) {
    whole == Extraction(calls + rest.calls, rest.outcome)
  }

  lemma {:induction false} Resumed(whole: Extraction, calls: seq<Call>, call: Call, rest: Extraction)
    requires whole == Extraction(calls + ([call] + rest.calls), rest.outcome)
    ensures Resumes(whole, calls + [call], rest)
  {
    assert calls + ([call] + rest.calls) == calls + [call] + rest.calls;
  }

  lemma {:induction false} ExtractStep(mem: Memory, data: nat, len: nat, file: Handler)
    ensures Extract(mem, data, len, file) ==
      match Next(mem, data, len)
      case Stop(rc) => Extraction([], Returned(rc))
      case Handle(call, pos, left, n) =>
        if file(call) != 0 then Extraction([call], Returned(file(call)))
        else if n == 0 then Extraction([call], Forever)
        else
          var rest := Extract(mem, pos + n, left - n, file);
          Extraction([call] + rest.calls, rest.outcome)
  {
    hide Next;
  }

  /** Hands every member up to the trailer to the handler; `forever` when the loop would not advance. */
  method CpioExtract(mem: Memory, data: nat, len: nat, file: Handler)
    returns (rc: int, forever: bool, calls: seq<Call>)
    ensures Extract(mem, data, len, file)
         == Extraction(calls, if forever then Forever else Returned(rc))
  {
    hide Next, Extract;
    var pos: nat, left: nat := data, len;
    calls, forever := [], false;
    while true
      invariant Resumes(Extract(mem, data, len, file), calls, Extract(mem, pos, left, file))
      decreases left
    {
      var s := NextMember(mem, pos, left);
      ExtractStep(mem, pos, left, file);
      if s.Stop? {
        return s.rc, false, calls;
      }
      ghost var whole, before := Extract(mem, data, len, file), calls;
      calls := calls + [s.call];
      rc := file(s.call);
      if rc != 0 {
        return;
      }
      if s.n == 0 {
        return 0, true, calls;
      }
      pos, left := s.pos + s.n, s.left - s.n;
      Resumed(whole, before, s.call, Extract(mem, pos, left, file));
    }
  }

  // ------------------------------------------------------------ standing still

  /** A member's length, rounded up or not, is zero; rounding wraps only for the longest ones. */
  predicate Stands(size: nat, left: nat) {
    size == 0 || LONG - 3 <= size < left
  }

  lemma {:induction false} RoundedLength(size: nat, left: nat)
    requires size < LONG && left > 0
    ensures MemberLen(size, left) == 0 <==> Stands(size, left)
    ensures HEADER <= size < 2 * LONG / 3 ==> MemberLen(size, left) >= HEADER
  {
    if size + 3 >= LONG {
      DivModUnique(size + 3, LONG, 1, size + 3 - LONG);
    } else {
      DivModUnique(size + 3, LONG, 0, size + 3);
    }
  }

  lemma {:induction false} ShortFields(nameLen: nat, fileLen: nat)
    requires nameLen < UINT && fileLen < UINT
    ensures HEADER <= (Align((HEADER + nameLen) % LONG) + fileLen) % LONG < 2 * LONG / 3
  {
    DivModUnique(HEADER + nameLen, LONG, 0, HEADER + nameLen);
    var dataAt := Align(HEADER + nameLen);
    DivModUnique(dataAt + fileLen, LONG, 0, dataAt + fileLen);
  }

  /** A round leaves the archive where it is exactly when the member's two lengths sum to zero. */
  lemma {:induction false} StandsStill(mem: Memory, data: nat, len: nat)
    requires Next(mem, data, len).Handle?
    ensures var s := Next(mem, data, len);
      var nameLen, fileLen := Value(mem, s.pos + NAMESIZE), Value(mem, s.pos + FILESIZE);
      && Member(mem, s.pos).1 == (Align((HEADER + nameLen) % LONG) + fileLen) % LONG
      && (s.n == 0 <==> Stands(Member(mem, s.pos).1, s.left))
      && (nameLen < UINT && fileLen < UINT ==> s.n >= HEADER)
  {
    hide Value, SkipPadding, At;
    var s := Next(mem, data, len);
    var nameLen, fileLen := Value(mem, s.pos + NAMESIZE), Value(mem, s.pos + FILESIZE);
    var size := (Align((HEADER + nameLen) % LONG) + fileLen) % LONG;
    RoundedLength(size, s.left);
    if nameLen < UINT && fileLen < UINT {
      ShortFields(nameLen, fileLen);
    }
  }

  /** Rounds that follow each other from `data` on. */
  ghost predicate Rounds(mem: Memory, data: nat, len: nat, steps: seq<Step>)
    decreases |steps|
  {
    steps == [] ||
    (var s := steps[0];
     s == Next(mem, data, len) && s.Handle? && Rounds(mem, s.pos + s.n, s.left - s.n, steps[1..]))
  }

  ghost predicate Accepted(steps: seq<Step>, file: Handler) {
    forall i :: 0 <= i < |steps| ==> steps[i].Handle? && file(steps[i].call) == 0
  }

  /** The handler accepts every call up to a member that leaves the archive where it is. */
  ghost predicate Circles(mem: Memory, data: nat, len: nat, file: Handler, steps: seq<Step>) {
    && steps != [] && Rounds(mem, data, len, steps) && Accepted(steps, file)
    && var s := steps[|steps| - 1];
       Stands(Member(mem, s.pos).1, s.left)
  }

  lemma {:induction false} CirclesForever(mem: Memory, data: nat, len: nat, file: Handler, steps: seq<Step>)
    requires Circles(mem, data, len, file, steps)
    ensures Extract(mem, data, len, file).outcome == Forever
    decreases |steps|
  {
    hide Next, Stands, Member, Extract;
    var s := steps[0];
    ExtractStep(mem, data, len, file);
    StandsStill(mem, data, len);
    if s.n == 0 {
    } else {
      assert steps[1..] != [];
      assert steps[1..][|steps| - 2] == steps[|steps| - 1];
      CirclesForever(mem, s.pos + s.n, s.left - s.n, file, steps[1..]);
    }
  }

  lemma NextShrinks(mem: Memory, data: nat, len: nat)
    requires Next(mem, data, len).Handle?
    ensures var s := Next(mem, data, len); s.n <= s.left <= len
  {}

  /** The rounds on the way to the member the extraction circles at, which are its calls. */
  lemma {:induction false} ForeverCircles(mem: Memory, data: nat, len: nat, file: Handler) returns (steps: seq<Step>)
    requires Extract(mem, data, len, file).outcome == Forever
    ensures Circles(mem, data, len, file, steps) && |steps| == |Extract(mem, data, len, file).calls|
    ensures forall i :: 0 <= i < |steps| ==> steps[i].call == Extract(mem, data, len, file).calls[i]
    decreases len
  {
    hide Next, Stands, Member, Extract;
    ExtractStep(mem, data, len, file);
    var s := Next(mem, data, len);
    StandsStill(mem, data, len);
    if s.n == 0 {
      steps := [s];
      assert steps[1..] == [];
      assert Rounds(mem, data, len, steps);
    } else {
      NextShrinks(mem, data, len);
      var rest := ForeverCircles(mem, s.pos + s.n, s.left - s.n, file);
      steps := [s] + rest;
      assert steps[1..] == rest && steps[|steps| - 1] == rest[|rest| - 1];
    }
  }

  /** The extraction never ends exactly when such a member is reached. */
  lemma {:induction false} ForeverExactly(mem: Memory, data: nat, len: nat, file: Handler)
    ensures Extract(mem, data, len, file).outcome == Forever
      <==> exists steps :: Circles(mem, data, len, file, steps)
  {
    if steps :| Circles(mem, data, len, file, steps) {
      CirclesForever(mem, data, len, file, steps);
    }
    if Extract(mem, data, len, file).outcome == Forever {
      var steps := ForeverCircles(mem, data, len, file);
    }
  }

  /** An archive whose file size is minus the length of its header and name: "-0000070". */
  function CirclingArchive(): Memory {
    (a: nat) =>
      if a < 6 then Magic()[a]
      else if a == FILESIZE then 0x2d
      else if a == FILESIZE + 6 then 0x37
      else if a == NAMESIZE + 7 then 0x32
      else if a < HEADER then 0x30
      else if a == HEADER then 0x41
      else 0
  }

  lemma {:induction false} ZeroDigits(s: seq<byte>, i: nat, j: nat)
    requires i <= j <= |s| && forall k :: i <= k < j ==> s[k] == 0x30
    ensures Digits(s, i, 16, 0) == Digits(s, j, 16, 0)
    decreases j - i
  {
    if i == j {
    } else {
      DigitStep(s, i, 16, 0);
      ZeroDigits(s, i + 1, j);
    }
  }

  lemma {:induction false} CirclingSizes()
    ensures Value(CirclingArchive(), NAMESIZE) == 2
    ensures Value(CirclingArchive(), FILESIZE) == LONG - 112
  {
    hide Digits, Read, SkipSpaces;
    var mem := CirclingArchive();
    var name, size := Read(mem, NAMESIZE, 8) + [0], Read(mem, FILESIZE, 8) + [0];
    SpaceStep(name, 0);
    SpaceStep(size, 0);
    ZeroDigits(name, 0, 7);
    DigitStep(name, 7, 16, 0);
    DigitStep(name, 8, 16, 2);
    ZeroDigits(size, 1, 6);
    DigitStep(size, 6, 16, 0);
    DigitStep(size, 7, 16, 7);
    DigitStep(size, 8, 16, 0x70);
  }

  /** The failing input: a handler that accepts it is called for ever with the same member. */
  lemma {:induction false} CirclingForever(len: nat, file: Handler)
    requires 112 <= len && file(Call(HEADER, 112, LONG - 112)) == 0
    ensures Extract(CirclingArchive(), 0, len, file) == Extraction([Call(HEADER, 112, LONG - 112)], Forever)
  {
    hide Value, Extract;
    var mem := CirclingArchive();
    CirclingSizes();
    assert mem(HEADER + 0) != (Trailer() + [0])[0];
    assert At(mem, 0, Magic()) && !IsTrailer(mem, HEADER);
    assert mem(0 + 0) == Magic()[0];
    assert SkipPadding(mem, 0, len) == (0, len);
    assert Member(mem, 0) == (Call(HEADER, 112, LONG - 112), 0);
    assert Next(mem, 0, len) == Handle(Call(HEADER, 112, LONG - 112), 0, len, 0);
    ExtractStep(mem, 0, len, file);
  }
}
