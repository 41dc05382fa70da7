/**
 Log parameters (src/log_params.cpp, include/logger.h): a copyable block of at most twelve
 type-length-value records in 160 bytes.
 */
module LogParams {
  import opened Basics

  const U64 := 0x1_0000_0000_0000_0000
  type int64 = x: int | -0x8000_0000_0000_0000 <= x < 0x8000_0000_0000_0000

  const LOG_MAX_PARAMS := 12
  const LOG_PARAM_DATA_MAX_LEN := 160

  // A real is given by its 64-bit pattern, a text by its bytes before the terminating zero.
  datatype LogParam =
    | Signed(signed: int64) | Unsigned(unsigned: uint64) | Real(bits: uint64) | Boolean(flag: bool)
    | Text(text: seq<uint8>)

  // ---------- little-endian numbers ----------

  function Pow256(n: nat): (p: nat)
    ensures p >= 1
  {
    if n == 0 then 1 else 256 * Pow256(n - 1)
  }

  function LittleEndian(v: nat, n: nat): (r: seq<uint8>)
    ensures |r| == n
  {
    if n == 0 then [] else [v % 256] + LittleEndian(v / 256, n - 1)
  }

  function NumberOf(bytes: seq<uint8>): nat {
    if bytes == [] then 0 else bytes[0] + 256 * NumberOf(bytes[1..])
  }

  lemma {:induction false} NumberRoundTrip(v: nat, n: nat)
    requires v < Pow256(n)
    ensures NumberOf(LittleEndian(v, n)) == v
  {
    if n > 0 {
      NumberRoundTrip(v / 256, n - 1);
      assert LittleEndian(v, n)[1..] == LittleEndian(v / 256, n - 1);
    }
  }

  lemma {:induction false} NumberBound(bytes: seq<uint8>)
    ensures NumberOf(bytes) < Pow256(|bytes|)
  {
    if bytes != [] {
      NumberBound(bytes[1..]);
    }
  }

  lemma Pow256Of8()
    ensures Pow256(8) == U64
  {
    assert Pow256(4) == 0x1_0000_0000;
  }

  // Two's complement.
  function ToBits(v: int64): uint64 {
    if v < 0 then v + U64 else v
  }

  function FromBits(b: uint64): int64 {
    if b < 0x8000_0000_0000_0000 then b else b - U64
  }

  // The exponent field is not all ones.
  predicate IsFinite(bits: uint64) {
    bits / 0x10_0000_0000_0000 % 0x800 != 0x7FF
  }

  // ---------- records ----------

  function TypeCode(p: LogParam): uint8 {
    match p
    case Signed(_) => 0
    case Unsigned(_) => 1
    case Real(_) => 2
    case Boolean(_) => 3
    case Text(_) => 4
  }

  // The value bytes; a text is copied with its terminating zero.
  function Payload(p: LogParam): seq<uint8> {
    match p
    case Signed(v) => LittleEndian(ToBits(v), 8)
    case Unsigned(v) => LittleEndian(v, 8)
    case Real(bits) => LittleEndian(bits, 8)
    case Boolean(flag) => [if flag then 1 else 0]
    case Text(t) => t + [0]
  }

  // What a caller can pass: a text has no zero byte inside.
  predicate IsParam(p: LogParam) {
    p.Text? ==> forall i :: 0 <= i < |p.text| ==> p.text[i] != 0
  }

  predicate IsStorable(p: LogParam) {
    IsParam(p) && (p.Real? ==> IsFinite(p.bits))
  }

  function Record(p: LogParam): (r: seq<uint8>)
    ensures |r| == |Payload(p)| + 3
  {
    [TypeCode(p), |Payload(p)| % 256, |Payload(p)| / 256 % 256] + Payload(p)
  }

  predicate Fits(p: LogParam, count: nat, used: nat) {
    count < LOG_MAX_PARAMS && |Payload(p)| + 3 <= LOG_PARAM_DATA_MAX_LEN - used
  }

  // How many bytes a value takes.
  function Size(p: LogParam): nat {
    match p
    case Boolean(_) => 1
    case Text(t) => |t| + 1
    case _ => 8
  }

  // Room is for twelve parameters and 160 bytes, three of them to each parameter besides its value. The only numbers
  // refused are reals whose exponent bits are all set.
  lemma RoomRule(p: LogParam, count: nat, used: nat)
    ensures Fits(p, count, used) <==> count < 12 && used + 3 + Size(p) <= 160
    ensures p.Real? ==> (IsFinite(p.bits) <==> p.bits / 0x10_0000_0000_0000 % 2048 != 2047)
  {
  }

  ghost function Encoded(ps: seq<LogParam>): seq<uint8> {
    if ps == [] then [] else Record(ps[0]) + Encoded(ps[1..])
  }

  lemma {:induction false} EncodedAppend(ps: seq<LogParam>, p: LogParam)
    ensures Encoded(ps + [p]) == Encoded(ps) + Record(p)
  {
    if ps == [] {
      assert (ps + [p])[1..] == [];
    } else {
      assert (ps + [p])[1..] == ps[1..] + [p];
      EncodedAppend(ps[1..], p);
    }
  }

  // ---------- decoding, on arbitrary bytes ----------

  // A C string: the bytes before the first zero.
  function CString(b: seq<uint8>): seq<uint8> {
    if b == [] || b[0] == 0 then [] else [b[0]] + CString(b[1..])
  }

  function Decode(code: uint8, payload: seq<uint8>): Option<LogParam> {
    if code == 0 && |payload| == 8 then NumberBound(payload); Pow256Of8(); Some(Signed(FromBits(NumberOf(payload))))
    else if code == 1 && |payload| == 8 then NumberBound(payload); Pow256Of8(); Some(Unsigned(NumberOf(payload)))
    else if code == 2 && |payload| == 8 then
      NumberBound(payload); Pow256Of8();
      if IsFinite(NumberOf(payload)) then Some(Real(NumberOf(payload))) else None
    else if code == 3 && |payload| == 1 && payload[0] <= 1 then Some(Boolean(payload[0] != 0))
    else if code == 4 && payload != [] && payload[|payload| - 1] == 0 then Some(Text(CString(payload)))
    else None
  }

  function SizeOf(low: int, high: int): nat
    requires low >= 0 && high >= 0
  {
    low + 256 * high
  }

  // The index-th record.
  function Find(data: seq<uint8>, index: nat): Option<LogParam>
    decreases index
  {
    if |data| < 3 then None
    else
      var size := SizeOf(data[1], data[2]);
      if size > |data| - 3 then None
      else if index == 0 then Decode(data[0], data[3..3 + size])
      else Find(data[3 + size..], index - 1)
  }

  lemma {:induction false} CStringOfText(t: seq<uint8>)
    requires forall i :: 0 <= i < |t| ==> t[i] != 0
    ensures CString(t + [0]) == t
  {
    if t != [] {
      assert (t + [0])[1..] == t[1..] + [0];
      CStringOfText(t[1..]);
    }
  }

  // Decoding inverts encoding.
  lemma DecodeOfRecord(p: LogParam)
    requires IsStorable(p)
    ensures Decode(TypeCode(p), Payload(p)) == Some(p)
  {
    Pow256Of8();
    match p
    case Signed(v) => NumberRoundTrip(ToBits(v), 8);
    case Unsigned(v) => NumberRoundTrip(v, 8);
    case Real(bits) => NumberRoundTrip(bits, 8);
    case Boolean(flag) =>
    case Text(t) => CStringOfText(t);
  }

  // ---------- the block ----------

  class LogParamBlock {
    var count: nat
    var used: nat
    const data: array<uint8>
    ghost var params: seq<LogParam>

    ghost predicate Valid()
      reads this, data
    {
      && data.Length == LOG_PARAM_DATA_MAX_LEN && used <= data.Length
      && count == |params| <= LOG_MAX_PARAMS
      && (forall i :: 0 <= i < |params| ==> IsStorable(params[i]))
      && data[..used] == Encoded(params)
    }

    constructor ()
      ensures Valid() && params == [] && fresh(data)
    {
      count, used, params := 0, 0, [];
      data := new uint8[LOG_PARAM_DATA_MAX_LEN](_ => 0);
    }

    // Copy source to data[start..].
    method Copy(start: nat, source: seq<uint8>)
      requires start + |source| <= data.Length
      modifies data
      ensures data[..start] == old(data[..start]) && data[start..start + |source|] == source
    {
      for i := 0 to |source|
        invariant data[..start] == old(data[..start]) && data[start..start + i] == source[..i]
      {
        data[start + i] := source[i];
      }
    }

    // A rejected parameter leaves the block as it was.
    method Append(p: LogParam) returns (ok: bool)
      requires Valid() && IsParam(p)
      modifies this, data
      ensures Valid()
      ensures ok <==> (p.Real? ==> IsFinite(p.bits)) && Fits(p, old(count), old(used))
      ensures params == old(params) + (if ok then [p] else [])
      ensures !ok ==> used == old(used) && count == old(count) && data[..] == old(data[..])
    {
      if p.Real? && !IsFinite(p.bits) { return false; }
      var source := Payload(p);
      var size := |source|;
      if count >= LOG_MAX_PARAMS || used > data.Length || size + 3 > data.Length - used { return false; }
      WriteRecord(p, source);
      EncodedAppend(params, p);
      params := params + [p];
      return true;
    }

    method WriteRecord(p: LogParam, source: seq<uint8>)
      requires data.Length == LOG_PARAM_DATA_MAX_LEN && source == Payload(p) && used + |source| + 3 <= data.Length
      modifies this`used, this`count, data
      ensures used == old(used) + |source| + 3 && count == old(count) + 1
      ensures data[..used] == old(data[..used]) + Record(p)
    {
      ghost var before, head := data[..used], [TypeCode(p), |source| % 256, |source| / 256 % 256];
      WriteHeader(TypeCode(p), |source|);
      WriteValue(source);
      assert before + head + source == before + (head + source);
      count := count + 1;
    }

    method WriteValue(source: seq<uint8>)
      requires used + |source| <= data.Length
      modifies this`used, data
      ensures used == old(used) + |source| && data[..used] == old(data[..used]) + source
    {
      Copy(used, source);
      ghost var start := used;
      used := used + |source|;
      assert data[..used] == data[..start] + data[start..used];
    }

    method WriteHeader(code: uint8, size: nat)
      requires used + 3 <= data.Length && size < 0x10000
      modifies this`used, data
      ensures used == old(used) + 3 && data[..used] == old(data[..used]) + [code, size % 256, size / 256 % 256]
    {
      data[used] := code;
      used := used + 1;
      data[used] := size % 256;
      used := used + 1;
      data[used] := size / 256;
      used := used + 1;
    }

    method Get(index: nat) returns (r: Option<LogParam>)
      requires data.Length == LOG_PARAM_DATA_MAX_LEN
      ensures r == if index >= count || count > LOG_MAX_PARAMS || used > data.Length then None
                   else Find(data[..used], index)
    {
      if index >= count || count > LOG_MAX_PARAMS || used > data.Length { return None; }
      ghost var bytes := data[..used];
      assert bytes[0..] == bytes;
      ghost var target := Find(bytes, index);
      var cursor: nat, ok := 0, true;
      for i := 0 to index
        invariant cursor <= used && target == Find(bytes[cursor..], index - i)
      {
        ok, cursor := SkipRecord(cursor, bytes, index - i);
        if !ok { return None; }
      }
      r := ReadRecord(cursor, bytes);
    }

    // The cursor behind the record at the cursor.
    method SkipRecord(cursor: nat, ghost bytes: seq<uint8>, ghost index: nat) returns (ok: bool, next: nat)
      requires used <= data.Length && bytes == data[..used] && cursor <= used && index > 0
      ensures if ok then next <= used && Find(bytes[cursor..], index) == Find(bytes[next..], index - 1)
              else Find(bytes[cursor..], index) == None
    {
      if cursor + 3 > used { return false, cursor; }
      var size := SizeOf(data[cursor + 1], data[cursor + 2]);
      FindBehind(bytes, cursor, size, index);
      if size > used - (cursor + 3) { return false, cursor; }
      return true, cursor + 3 + size;
    }

    // The record at the cursor.
    method ReadRecord(cursor: nat, ghost bytes: seq<uint8>) returns (r: Option<LogParam>)
      requires used <= data.Length && bytes == data[..used] && cursor <= used
      ensures r == Find(bytes[cursor..], 0)
    {
      if cursor + 3 > used { return None; }
      var code, size := data[cursor], SizeOf(data[cursor + 1], data[cursor + 2]);
      FindHere(bytes, cursor, size);
      if size > used - (cursor + 3) { return None; }
      var payload := data[cursor + 3..cursor + 3 + size];
      SliceOfPrefix(data[..], used, cursor + 3, cursor + 3 + size);
      return Decode(code, payload);
    }
  }

  lemma SliceOfPrefix(b: seq<uint8>, n: nat, i: nat, j: nat)
    requires i <= j <= n <= |b|
    ensures b[i..j] == b[..n][i..j]
  {
    var x, y := b[i..j], b[..n][i..j];
    forall k | 0 <= k < j - i ensures x[k] == y[k] { assert y[k] == b[..n][i + k] == b[i + k]; }
  }

  lemma SliceOfSuffix(b: seq<uint8>, c: nat, i: nat, j: nat)
    requires i <= j && c + j <= |b|
    ensures b[c..][i..j] == b[c + i..c + j]
  {
    var x, y := b[c..][i..j], b[c + i..c + j];
    forall k | 0 <= k < j - i ensures x[k] == y[k] { assert x[k] == b[c..][i + k] == b[c + i + k]; }
  }

  lemma SuffixOfSuffix<T>(b: seq<T>, c: nat, i: nat)
    requires c + i <= |b|
    ensures b[c..][i..] == b[c + i..]
  {
    var x, y := b[c..][i..], b[c + i..];
    forall k | 0 <= k < |b| - c - i ensures x[k] == y[k] { assert x[k] == b[c..][i + k] == b[c + i + k]; }
  }

  // Finding a record behind the one at the cursor...
  lemma FindBehind(bytes: seq<uint8>, cursor: nat, size: nat, index: nat)
    requires cursor + 3 <= |bytes| && size == SizeOf(bytes[cursor + 1], bytes[cursor + 2]) && index > 0
    ensures Find(bytes[cursor..], index) ==
            if size > |bytes| - (cursor + 3) then None else Find(bytes[cursor + 3 + size..], index - 1)
  {
    var rest := bytes[cursor..];
    assert rest[1] == bytes[cursor + 1] && rest[2] == bytes[cursor + 2];
    if size <= |bytes| - (cursor + 3) { SuffixOfSuffix(bytes, cursor, 3 + size); }
  }

  // ... and the one at the cursor.
  lemma FindHere(bytes: seq<uint8>, cursor: nat, size: nat)
    requires cursor + 3 <= |bytes| && size == SizeOf(bytes[cursor + 1], bytes[cursor + 2])
    ensures Find(bytes[cursor..], 0) ==
            if size > |bytes| - (cursor + 3) then None
            else Decode(bytes[cursor], bytes[cursor + 3..cursor + 3 + size])
  {
    var rest := bytes[cursor..];
    assert rest[0] == bytes[cursor] && rest[1] == bytes[cursor + 1] && rest[2] == bytes[cursor + 2];
    if size <= |bytes| - (cursor + 3) { SliceOfSuffix(bytes, cursor, 3, 3 + size); }
  }

  // ---------- round trip ----------

  // get returns exactly the index-th accepted parameter.
  method GetParam(block: LogParamBlock, index: nat) returns (r: Option<LogParam>)
    requires block.Valid()
    ensures r == if index < |block.params| then Some(block.params[index]) else None
  {
    r := block.Get(index);
    if index < |block.params| {
      GetReturnsAppended(block.params, index);
    }
  }

  // The first record of a block, and the block behind it.
  lemma FindAtRecord(p: LogParam, rest: seq<uint8>, i: nat)
    requires IsStorable(p) && |Payload(p)| < 0x10000
    ensures Find(Record(p) + rest, i) == if i == 0 then Some(p) else Find(rest, i - 1)
  {
    var data, size := Record(p) + rest, |Payload(p)|;
    assert data[0] == TypeCode(p) && data[1] == size % 256 && data[2] == size / 256;
    assert SizeOf(data[1], data[2]) == size;
    assert data[3..3 + size] == Payload(p);
    assert data[3 + size..] == rest;
    DecodeOfRecord(p);
  }

  // Reading the bytes written by a sequence of appends gives back the i-th parameter, for every i.
  lemma {:induction false} GetReturnsAppended(ps: seq<LogParam>, i: nat)
    requires |Encoded(ps)| < 0x10000 && i < |ps| && forall k :: 0 <= k < |ps| ==> IsStorable(ps[k])
    ensures Find(Encoded(ps), i) == Some(ps[i])
  {
    FindInEncoded(ps, i);
    if i > 0 {
      EncodedIsShorter(ps);
      GetReturnsAppended(ps[1..], i - 1);
    }
  }

  lemma FindInEncoded(ps: seq<LogParam>, i: nat)
    requires ps != [] && |Encoded(ps)| < 0x10000 && IsStorable(ps[0])
    ensures Find(Encoded(ps), i) == if i == 0 then Some(ps[0]) else Find(Encoded(ps[1..]), i - 1)
  {
    FindAtRecord(ps[0], Encoded(ps[1..]), i);
  }

  lemma EncodedIsShorter(ps: seq<LogParam>)
    requires ps != []
    ensures |Encoded(ps[1..])| <= |Encoded(ps)|
  {
  }
}
