/**
 The last stage of log serialization (src/log_serialization.cpp): control bytes left in the
 JSON text are expanded in place, from the back, to their six-byte \u00xx form
 (section 7 of RFC 8259).
 */
module LogEscape {
  import opened Basics

  const BACKSLASH: uint8 := 92
  const LETTER_U: uint8 := 117
  const ZERO: uint8 := 48

  predicate IsControl(c: uint8) {
    c < 0x20
  }

  function Hex(n: int): (h: uint8)
    requires 0 <= n < 16
    ensures IsHex(h) && HexValue(h) == n
  {
    if n < 10 then 48 + n else 97 + n - 10
  }

  predicate IsHex(h: uint8) {
    48 <= h <= 57 || 97 <= h <= 102
  }

  function HexValue(h: uint8): (n: int)
    requires IsHex(h)
    ensures 0 <= n < 16
  {
    if h <= 57 then h - 48 else h - 97 + 10
  }

  function EscapeByte(c: uint8): (r: seq<uint8>)
    ensures |r| == if IsControl(c) then 6 else 1
  {
    if IsControl(c) then [BACKSLASH, LETTER_U, ZERO, ZERO, Hex(c / 16), Hex(c % 16)] else [c]
  }

  function Escape(s: seq<uint8>): seq<uint8> {
    if s == [] then [] else EscapeByte(s[0]) + Escape(s[1..])
  }

  function Controls(s: seq<uint8>): nat {
    if s == [] then 0 else (if IsControl(s[|s| - 1]) then 1 else 0) + Controls(s[..|s| - 1])
  }

  lemma {:induction false} EscapeAppend(a: seq<uint8>, b: seq<uint8>)
    ensures Escape(a + b) == Escape(a) + Escape(b)
  {
    if a == [] {
      assert a + b == b;
    } else {
      assert (a + b)[1..] == a[1..] + b;
      EscapeAppend(a[1..], b);
    }
  }

  lemma {:induction false} EscapeLength(s: seq<uint8>)
    ensures |Escape(s)| == |s| + 5 * Controls(s)
  {
    if s != [] {
      var front, last := s[..|s| - 1], s[|s| - 1];
      assert s == front + [last];
      EscapeLength(front);
      EscapeAppend(front, [last]);
      assert Escape([last]) == EscapeByte(last) + Escape([]);
    }
  }

  // No control byte is left.
  lemma {:induction false} EscapeHasNoControls(s: seq<uint8>)
    ensures forall i :: 0 <= i < |Escape(s)| ==> !IsControl(Escape(s)[i])
  {
    if s != [] {
      EscapeHasNoControls(s[1..]);
      forall i | 0 <= i < |EscapeByte(s[0])|
        ensures !IsControl(EscapeByte(s[0])[i])
      {
      }
    }
  }

  // A control byte becomes a backslash, the letter u, two zeros and its two hexadecimal digits.
  lemma EscapeOfControl(c: uint8, high: int, low: int)
    requires 0 <= high < 2 && 0 <= low < 16 && c == 16 * high + low
    ensures Escape([c]) == [92, 117, 48, 48, 48 + high, if low < 10 then 48 + low else 87 + low]
  {
    assert c / 16 == high && c % 16 == low;
    assert Escape([c]) == EscapeByte(c) + Escape([]);
  }

  // Text without control bytes is left alone.
  lemma {:induction false} EscapeIsIdentity(s: seq<uint8>)
    requires forall i :: 0 <= i < |s| ==> !IsControl(s[i])
    ensures Escape(s) == s
  {
    if s != [] {
      EscapeIsIdentity(s[1..]);
    }
  }

  // ---------- the in-place expansion ----------

  method CountControls(output: array<uint8>, size: nat) returns (controls: nat)
    requires size <= output.Length
    ensures controls == Controls(output[..size])
  {
    controls := 0;
    for i := 0 to size
      invariant controls == Controls(output[..i])
    {
      assert output[..i + 1][..i] == output[..i];
      if output[i] < 0x20 { controls := controls + 1; }
    }
  }

  // Writing the expansion of one byte in front of position destination.
  method PutBefore(output: array<uint8>, destination: nat, c: uint8) returns (start: nat)
    requires |EscapeByte(c)| <= destination <= output.Length
    modifies output
    ensures start == destination - |EscapeByte(c)|
    ensures output[start..destination] == EscapeByte(c)
    ensures forall k :: 0 <= k < start || destination <= k < output.Length ==> output[k] == old(output[k])
  {
    if c < 0x20 {
      start := destination - 6;
      output[start], output[start + 1], output[start + 2], output[start + 3] := BACKSLASH, LETTER_U, ZERO, ZERO;
      output[start + 4] := Hex(c / 16);
      output[start + 5] := Hex(c % 16);
    } else {
      start := destination - 1;
      output[start] := c;
    }
  }

  // Splitting off the last unread byte.
  lemma EscapeStep(s: seq<uint8>, i: nat)
    requires 0 < i <= |s|
    ensures Escape(s[i - 1..]) == EscapeByte(s[i - 1]) + Escape(s[i..])
    ensures |Escape(s[..i])| == |Escape(s[..i - 1])| + |EscapeByte(s[i - 1])|
    ensures |Escape(s[..i - 1])| >= i - 1
  {
    assert s[i - 1..][1..] == s[i..];
    assert s[..i] == s[..i - 1] + [s[i - 1]];
    EscapeAppend(s[..i - 1], [s[i - 1]]);
    assert Escape([s[i - 1]]) == EscapeByte(s[i - 1]) + Escape([]);
    EscapeLength(s[..i - 1]);
  }

  // Bytes s[..i] are unread and in place; the expansion of the others ends at expanded.
  ghost predicate Progress(out: seq<uint8>, s: seq<uint8>, i: nat, destination: nat, expanded: nat) {
    && i <= |s| && i <= destination <= expanded <= |out| && destination == |Escape(s[..i])|
    && out[..i] == s[..i] && out[destination..expanded] == Escape(s[i..])
  }

  lemma ProgressStep(out: seq<uint8>, out': seq<uint8>, s: seq<uint8>, i: nat, destination: nat, start: nat,
                     expanded: nat)
    requires 0 < i && Progress(out, s, i, destination, expanded) && |out'| == |out|
    requires 0 <= start == destination - |EscapeByte(s[i - 1])|
    requires out'[start..destination] == EscapeByte(s[i - 1])
    requires forall k :: 0 <= k < start || destination <= k < |out| ==> out'[k] == out[k]
    ensures Progress(out', s, i - 1, start, expanded)
  {
    EscapeStep(s, i);
    Splice(out, out', start, destination, expanded);
    assert out'[..i - 1] == out[..i][..i - 1] == s[..i][..i - 1] == s[..i - 1];
  }

  lemma Splice(out: seq<uint8>, out': seq<uint8>, start: nat, destination: nat, expanded: nat)
    requires start <= destination <= expanded <= |out| == |out'|
    requires forall k :: destination <= k < |out| ==> out'[k] == out[k]
    ensures out'[start..expanded] == out'[start..destination] + out[destination..expanded]
  {
  }

  // The backward loop: unread bytes stay as they are until they are read.
  method ExpandBackward(output: array<uint8>, size: nat, expanded: nat)
    requires size <= expanded < output.Length && expanded == |Escape(output[..size])|
    modifies output
    ensures output[..expanded] == Escape(old(output[..size])) && output[expanded] == old(output[expanded])
  {
    ghost var s := output[..size];
    var destination, i := expanded, size;
    assert s[..size] == s && s[size..] == [];
    while i > 0
      invariant Progress(output[..], s, i, destination, expanded)
      invariant output[expanded] == old(output[expanded])
    {
      ghost var out := output[..];
      EscapeStep(s, i);
      assert out[i - 1] == s[i - 1] by { assert out[..i][i - 1] == s[..i][i - 1]; }
      i := i - 1;
      var start := PutBefore(output, destination, output[i]);
      assert output[..][start..destination] == output[start..destination];
      ProgressStep(out, output[..], s, i + 1, destination, start, expanded);
      destination := start;
    }
    assert s[0..] == s && s[..0] == [];
    assert output[..][0..expanded] == output[..expanded];
  }

  // The result is the escaped text, terminated, if it fits, and the untouched buffer otherwise.
  method ExpandInPlace(output: array<uint8>, size: nat) returns (ok: bool, written: nat)
    requires size <= output.Length
    modifies output
    ensures ok <==> |Escape(old(output[..size]))| < output.Length
    ensures ok ==>
              && written == |Escape(old(output[..size]))|
              && output[..written] == Escape(old(output[..size])) && output[written] == 0
    ensures !ok ==> written == 0 && output[..] == old(output[..])
  {
    EscapeLength(output[..size]);
    var controls := CountControls(output, size);
    var expanded := size + controls * 5;
    if expanded >= output.Length { return false, 0; }
    output[expanded] := 0;
    assert output[..size] == old(output[..size]);
    ExpandBackward(output, size, expanded);
    return true, expanded;
  }

  // ---------- meaning ----------

  // A \u00xx unit at the front.
  predicate StartsWithUnit(s: seq<uint8>) {
    |s| >= 6 && s[0] == BACKSLASH && s[1] == LETTER_U && s[2] == ZERO && s[3] == ZERO && IsHex(s[4]) && IsHex(s[5])
  }

  // Length of the first token of a string body: a \u00xx unit, another escape, or a plain byte.
  function TokenLength(s: seq<uint8>): (n: nat)
    requires s != []
    ensures 1 <= n <= |s|
  {
    if StartsWithUnit(s) then 6 else if s[0] == BACKSLASH && |s| >= 2 then 2 else 1
  }

  // The bytes a reader of the string sees: \u00xx units are replaced by the byte they stand for, other escapes are
  // kept.
  function Read(s: seq<uint8>): seq<int>
    decreases |s|
  {
    if s == [] then []
    else if StartsWithUnit(s) then [16 * HexValue(s[4]) + HexValue(s[5])] + Read(s[6..])
    else s[..TokenLength(s)] + Read(s[TokenLength(s)..])
  }

  // No escape consists of a backslash and a control byte. Serializers never write one.
  predicate EscapesAreText(s: seq<uint8>)
    decreases |s|
  {
    s == [] || ((TokenLength(s) == 2 ==> !IsControl(s[1])) && EscapesAreText(s[TokenLength(s)..]))
  }

  // Escape copies a front part without control bytes.
  lemma EscapeSplit(s: seq<uint8>, k: nat)
    requires k <= |s| && forall i :: 0 <= i < k ==> !IsControl(s[i])
    ensures Escape(s) == s[..k] + Escape(s[k..])
  {
    assert s == s[..k] + s[k..];
    EscapeAppend(s[..k], s[k..]);
    EscapeIsIdentity(s[..k]);
  }

  // A front part of the result without backslashes was copied.
  lemma {:induction false} NoBackslashNoEscape(s: seq<uint8>, k: nat)
    requires k <= |Escape(s)| && forall i :: 0 <= i < k ==> Escape(s)[i] != BACKSLASH
    ensures k <= |s| && Escape(s)[..k] == s[..k]
  {
    if k > 0 {
      var rest := Escape(s[1..]);
      assert !IsControl(s[0]) by { assert Escape(s)[0] == EscapeByte(s[0])[0]; }
      assert Escape(s) == [s[0]] + rest;
      forall i | 0 <= i < k - 1
        ensures rest[i] != BACKSLASH
      {
        assert rest[i] == Escape(s)[i + 1];
      }
      NoBackslashNoEscape(s[1..], k - 1);
      assert Escape(s)[..k] == [s[0]] + rest[..k - 1];
      assert s[..k] == [s[0]] + s[1..][..k - 1];
    }
  }

  // Escaping makes no new \u00xx unit out of another escape.
  lemma NoNewUnit(s: seq<uint8>)
    requires |s| >= 2 && s[0] == BACKSLASH && !IsControl(s[1]) && StartsWithUnit(Escape(s))
    ensures StartsWithUnit(s)
  {
    EscapeSplit(s, 2);
    var rest := Escape(s[2..]);
    assert forall i :: 0 <= i < 4 ==> rest[i] == Escape(s)[i + 2];
    NoBackslashNoEscape(s[2..], 4);
    assert forall i :: 0 <= i < 4 ==> s[i + 2] == s[2..][..4][i] == rest[i];
  }

  lemma ControlIsUnit(s: seq<uint8>)
    requires s != [] && IsControl(s[0])
    ensures StartsWithUnit(Escape(s)) && Escape(s)[6..] == Escape(s[1..])
    ensures 16 * HexValue(Escape(s)[4]) + HexValue(Escape(s)[5]) == s[0]
  {
    assert forall i :: 0 <= i < 6 ==> Escape(s)[i] == EscapeByte(s[0])[i];
  }

  // Escaping copies the first token, unless it is a control byte, and it stays the first token.
  lemma FirstToken(s: seq<uint8>, e: seq<uint8>)
    requires s != [] && !IsControl(s[0]) && (TokenLength(s) == 2 ==> !IsControl(s[1])) && e == Escape(s)
    ensures var n := TokenLength(s);
            && n <= |e| && e[..n] == s[..n] && e[n..] == Escape(s[n..])
            && (StartsWithUnit(e) <==> StartsWithUnit(s)) && TokenLength(e) == n
  {
    var n := TokenLength(s);
    TokenIsCopied(s, e, n);
    SameFirstToken(s, e, n);
  }

  lemma TokenIsCopied(s: seq<uint8>, e: seq<uint8>, n: nat)
    requires s != [] && !IsControl(s[0]) && n == TokenLength(s) && (n == 2 ==> !IsControl(s[1])) && e == Escape(s)
    ensures n <= |e| && e[..n] == s[..n] && e[n..] == Escape(s[n..]) && forall i :: 0 <= i < n ==> e[i] == s[i]
  {
    EscapeSplit(s, n);
    var rest := Escape(s[n..]);
    assert e == s[..n] + rest;
  }

  lemma SameFirstToken(s: seq<uint8>, e: seq<uint8>, n: nat)
    requires s != [] && !IsControl(s[0]) && n == TokenLength(s) && (n == 2 ==> !IsControl(s[1])) && e == Escape(s)
    requires n <= |e| && forall i :: 0 <= i < n ==> e[i] == s[i]
    ensures (StartsWithUnit(e) <==> StartsWithUnit(s)) && TokenLength(e) == n
  {
    if n == 2 && StartsWithUnit(e) {
      NoNewUnit(s);
    }
  }

  lemma SamePrefix(a: seq<int>, b: seq<int>, c: seq<int>)
    ensures a + b == a + c <==> b == c
  {
    if a + b == a + c {
      assert b == (a + b)[|a|..] == (a + c)[|a|..] == c;
    }
  }

  // Texts with the same first token are read equally if and only if their rests are.
  lemma ReadSameToken(s: seq<uint8>, e: seq<uint8>, n: nat)
    requires s != [] && e != [] && n == TokenLength(s) == TokenLength(e) && e[..n] == s[..n]
    requires StartsWithUnit(e) <==> StartsWithUnit(s)
    ensures Read(e) == Read(s) <==> Read(e[n..]) == Read(s[n..])
  {
    if StartsWithUnit(s) {
      ReadSameUnit(s, e);
    } else {
      SamePrefix(s[..n], Read(e[n..]), Read(s[n..]));
    }
  }

  lemma ReadSameUnit(s: seq<uint8>, e: seq<uint8>)
    requires StartsWithUnit(s) && StartsWithUnit(e) && e[..6] == s[..6]
    ensures Read(e) == Read(s) <==> Read(e[6..]) == Read(s[6..])
  {
    assert e[4] == e[..6][4] == s[4] && e[5] == e[..6][5] == s[5];
    SamePrefix([16 * HexValue(s[4]) + HexValue(s[5])], Read(e[6..]), Read(s[6..]));
  }

  lemma ReadControl(s: seq<uint8>, e: seq<uint8>)
    requires s != [] && IsControl(s[0]) && StartsWithUnit(e)
    requires 16 * HexValue(e[4]) + HexValue(e[5]) == s[0]
    ensures Read(e) == Read(s) <==> Read(e[6..]) == Read(s[1..])
  {
    assert s[..1] == [s[0]];
    SamePrefix([s[0]], Read(e[6..]), Read(s[1..]));
  }

  // A backslash in front of a control byte would swallow the backslash of its expansion.
  lemma ReadSwallowed(s: seq<uint8>)
    requires s != [] && TokenLength(s) == 2 && IsControl(s[1])
    ensures Read(Escape(s)) != Read(s)
  {
    var e := Escape(s);
    EscapeSplit(s, 1);
    assert e[0] == s[..1][0] == BACKSLASH;
    assert e[1] == Escape(s[1..])[0] == EscapeByte(s[1])[0] == BACKSLASH;
    assert Read(e)[1] == e[..2][1];
    assert Read(s)[1] == s[..2][1];
  }

  // A reader of the string sees the same bytes before and after the expansion, if and only if no escape in the text
  // is a backslash and a control byte.
  lemma {:induction false} EscapeKeepsMeaning(s: seq<uint8>)
    ensures Read(Escape(s)) == Read(s) <==> EscapesAreText(s)
    decreases |s|
  {
    if s != [] {
      EscapeKeepsMeaning(s[TokenLength(s)..]);
      if IsControl(s[0]) {
        ControlIsUnit(s);
        ReadControl(s, Escape(s));
      } else if TokenLength(s) == 2 && IsControl(s[1]) {
        ReadSwallowed(s);
      } else {
        FirstToken(s, Escape(s));
        ReadSameToken(s, Escape(s), TokenLength(s));
      }
    }
  }
}
