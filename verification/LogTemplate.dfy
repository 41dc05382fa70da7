/**
 Log message templates (src/log_messages.cpp, src/log_params.cpp, src/logger.cpp): texts with
 placeholders {p1}..{p12}, the check that an event supplies the right number of parameters,
 and the expansion into a bounded buffer.
 */
module LogTemplate {
  import opened Basics
  import opened LogParams

  datatype Definition = Definition(id: nat, text: string, shortText: Option<string>)

  predicate IsDigit(c: char) {
    '0' <= c <= '9'
  }

  // ---------- placeholders ----------

  predicate StartsHole(t: string) {
    |t| >= 2 && t[0] == '{' && t[1] == 'p'
  }

  // Index read from the digits at the front of t, and how many digits were read. Reading stops once the index is too
  // large.
  function ScanIndex(t: string, index: nat): (r: (nat, nat))
    ensures r.1 <= |t|
  {
    if t != [] && IsDigit(t[0]) && index <= LOG_MAX_PARAMS then
      var (i, n) := ScanIndex(t[1..], index * 10 + (t[0] as int - '0' as int));
      (i, n + 1)
    else (index, 0)
  }

  // Index and end of the digits of the placeholder at the front of t.
  function HoleIndex(t: string): nat
    requires StartsHole(t)
  {
    ScanIndex(t[2..], 0).0
  }

  function HoleEnd(t: string): (n: nat)
    requires StartsHole(t)
    ensures 2 <= n <= |t|
  {
    2 + ScanIndex(t[2..], 0).1
  }

  predicate GoodHole(t: string)
    requires StartsHole(t)
  {
    HoleEnd(t) < |t| && t[HoleEnd(t)] == '}' && 1 <= HoleIndex(t) <= LOG_MAX_PARAMS
  }

  const MALFORMED := 255

  function Max(a: nat, b: nat): nat {
    if a < b then b else a
  }

  // The largest index in t, or MALFORMED.
  function CountHoles(t: string, maximum: nat): nat
    decreases |t|
  {
    if t == [] then maximum
    else if StartsHole(t) then
      if GoodHole(t) then CountHoles(t[HoleEnd(t)..], Max(maximum, HoleIndex(t))) else MALFORMED
    else CountHoles(t[1..], maximum)
  }

  // logMessageParamCount
  function ParamCount(d: Definition): nat {
    var n := CountHoles(d.text, 0);
    if n == MALFORMED || d.shortText.None? then n else CountHoles(d.shortText.value, n)
  }

  // ---------- expansion ----------

  datatype Expansion = Expansion(text: string, complete: bool)

  // t from its first '}' on, without it.
  function AfterBrace(t: string): (r: string)
    ensures |r| <= |t|
  {
    if t == [] then [] else if t[0] == '}' then t[1..] else AfterBrace(t[1..])
  }

  // The full text of a template. complete is false if a placeholder has no parameter.
  function Expand(t: string, params: seq<LogParam>, render: LogParam -> string): Expansion
    decreases |t|
  {
    if t == [] then Expansion("", true)
    else if StartsHole(t) then
      if GoodHole(t) && HoleIndex(t) <= |params| then
        var rest := Expand(t[HoleEnd(t) + 1..], params, render);
        Expansion(render(params[HoleIndex(t) - 1]) + rest.text, rest.complete)
      else
        var rest := Expand(AfterBrace(t[HoleEnd(t)..]), params, render);
        Expansion("<missing>" + rest.text, false)
    else
      var rest := Expand(t[1..], params, render);
      Expansion([t[0]] + rest.text, rest.complete)
  }

  // Nothing is missing if and only if the count is covered by the parameters.
  lemma {:induction false} CountCovers(t: string, maximum: nat, params: seq<LogParam>, render: LogParam -> string)
    requires maximum <= |params| <= LOG_MAX_PARAMS
    ensures Expand(t, params, render).complete <==> CountHoles(t, maximum) <= |params|
    decreases |t|
  {
    if t != [] {
      if StartsHole(t) {
        if GoodHole(t) {
          var u := t[HoleEnd(t)..];
          assert !StartsHole(u) && u[1..] == t[HoleEnd(t) + 1..];
          if HoleIndex(t) <= |params| {
            CountCovers(u[1..], Max(maximum, HoleIndex(t)), params, render);
          } else {
            CountBound(u, Max(maximum, HoleIndex(t)));
          }
        }
      } else {
        CountCovers(t[1..], maximum, params, render);
      }
    }
  }

  lemma {:induction false} CountBound(t: string, maximum: nat)
    requires maximum <= LOG_MAX_PARAMS
    ensures CountHoles(t, maximum) == MALFORMED || maximum <= CountHoles(t, maximum) <= LOG_MAX_PARAMS
    decreases |t|
  {
    if t != [] {
      if StartsHole(t) {
        if GoodHole(t) { CountBound(t[HoleEnd(t)..], Max(maximum, HoleIndex(t))); }
      } else {
        CountBound(t[1..], maximum);
      }
    }
  }

  // An event that passes the parameter-count check of emit has a parameter for every placeholder, in the long
  // and in the short text.
  lemma TemplateAgreement(d: Definition, params: seq<LogParam>, render: LogParam -> string)
    requires |params| <= LOG_MAX_PARAMS && ParamCount(d) == |params|
    ensures Expand(d.text, params, render).complete
    ensures d.shortText.Some? ==> Expand(d.shortText.value, params, render).complete
  {
    var n := CountHoles(d.text, 0);
    CountBound(d.text, 0);
    if d.shortText.Some? && n != MALFORMED {
      CountBound(d.shortText.value, n);
      CountCovers(d.shortText.value, n, params, render);
    }
    CountCovers(d.text, 0, params, render);
  }

  // ---------- the routines ----------

  method FindLogMessage(messages: seq<Definition>, id: nat) returns (r: Option<Definition>)
    requires Sorted(messages)
    ensures r.Some? ==> r.value in messages && r.value.id == id
    ensures r.None? ==> forall i :: 0 <= i < |messages| ==> messages[i].id != id
  {
    var low, high := 0, |messages|;
    while low < high
      invariant 0 <= low <= high <= |messages|
      invariant forall i :: 0 <= i < low ==> messages[i].id < id
      invariant forall i :: high <= i < |messages| ==> messages[i].id >= id
    {
      var mid := low + (high - low) / 2;
      if messages[mid].id < id { low := mid + 1; } else { high := mid; }
    }
    if low < |messages| && messages[low].id == id { return Some(messages[low]); }
    return None;
  }

  // Read the digits at position start.
  method ReadIndex(t: string, start: nat) returns (index: nat, cursor: nat)
    requires start <= |t|
    ensures (index, cursor - start) == ScanIndex(t[start..], 0) && start <= cursor <= |t|
  {
    index, cursor := 0, start;
    while cursor < |t| && IsDigit(t[cursor]) && index <= LOG_MAX_PARAMS
      invariant start <= cursor <= |t|
      invariant ScanIndex(t[start..], 0) ==
                (ScanIndex(t[cursor..], index).0, ScanIndex(t[cursor..], index).1 + cursor - start)
    {
      assert t[cursor..][1..] == t[cursor + 1..];
      index, cursor := index * 10 + (t[cursor] as int - '0' as int), cursor + 1;
    }
  }

  method CountIn(t: string, start: nat) returns (maximum: nat)
    ensures maximum == CountHoles(t, start)
  {
    maximum := start;
    var i := 0;
    assert t[0..] == t;
    while i < |t|
      invariant 0 <= i <= |t| && CountHoles(t, start) == CountHoles(t[i..], maximum)
    {
      var u := t[i..];
      if StartsHole(u) {
        var index, cursor := ReadIndex(t, i + 2);
        assert u[2..] == t[i + 2..] && u[cursor - i..] == t[cursor..];
        if cursor == |t| || t[cursor] != '}' || index == 0 || index > LOG_MAX_PARAMS { return MALFORMED; }
        if index > maximum { maximum := index; }
        i := cursor;
      } else {
        assert u[1..] == t[i + 1..];
        i := i + 1;
      }
    }
  }

  method LogMessageParamCount(d: Definition) returns (count: nat)
    ensures count == ParamCount(d)
  {
    count := CountIn(d.text, 0);
    if count == MALFORMED || d.shortText.None? { return; }
    count := CountIn(d.shortText.value, count);
  }

  // The bounded output of formatLogMessage. full is the text put so far, as if there were room for all of it.
  class Writer {
    const out: array<char>
    var used: nat
    var ok: bool
    ghost var full: string
    ghost var missing: bool

    ghost predicate Valid()
      reads this, out
    {
      && out.Length > 0 && used <= |full| && used < out.Length
      && out[..used] == full[..used]
      && (used < |full| ==> used == out.Length - 1)
      && (ok <==> used == |full| && !missing)
    }

    constructor (output: array<char>)
      requires output.Length > 0
      ensures Valid() && out == output && full == "" && !missing
    {
      out, used, ok, full, missing := output, 0, true, "", false;
    }

    method Put(c: char)
      requires Valid()
      modifies this, out
      ensures Valid() && full == old(full) + [c] && missing == old(missing)
    {
      if used + 1 < out.Length {
        out[used] := c;
        used := used + 1;
      } else {
        ok := false;
      }
      full := full + [c];
    }

    method PutText(s: string)
      requires Valid()
      modifies this, out
      ensures Valid() && full == old(full) + s && missing == old(missing)
    {
      for i := 0 to |s|
        invariant Valid() && full == old(full) + s[..i] && missing == old(missing)
      {
        Put(s[i]);
      }
    }

    method Miss()
      requires Valid()
      modifies this, out
      ensures Valid() && full == old(full) + "<missing>" && missing
    {
      PutText("<missing>");
      ok, missing := false, true;
    }
  }

  // Position behind the next '}' from cursor on.
  method SkipBrace(t: string, cursor: nat) returns (next: nat)
    requires cursor <= |t|
    ensures cursor <= next <= |t| && t[next..] == AfterBrace(t[cursor..])
  {
    next := cursor;
    while next < |t| && t[next] != '}'
      invariant cursor <= next <= |t| && AfterBrace(t[cursor..]) == AfterBrace(t[next..])
    {
      assert t[next..][1..] == t[next + 1..];
      next := next + 1;
    }
    if next < |t| {
      assert t[next..][1..] == t[next + 1..];
      next := next + 1;
    }
  }

  function Decimal(n: nat): string {
    (if n < 10 then "" else Decimal(n / 10)) + [('0' as int + n % 10) as char]
  }

  // What is said of a message that is not in the table: its id, in at least three digits, and every parameter.
  function UnknownText(id: nat, params: seq<LogParam>, render: LogParam -> string, n: nat): string
    requires n <= |params|
  {
    if n == 0 then "Unknown message A" + (if id < 10 then "00" else if id < 100 then "0" else "") + Decimal(id)
    else UnknownText(id, params, render, n - 1) + (" p" + Decimal(n) + "=") + render(params[n - 1])
  }

  // What a message should read like.
  function FullText(found: Option<Definition>, id: nat, short: bool, params: seq<LogParam>,
                    render: LogParam -> string): Expansion {
    match found
    case None => Expansion(UnknownText(id, params, render, |params|), true)
    case Some(d) => Expand(if short && d.shortText.Some? then d.shortText.value else d.text, params, render)
  }

  // The buffer holds the text cut to its capacity - 1 and terminated; ok says whether nothing was lost.
  ghost predicate Written(e: Expansion, out: seq<char>, used: nat, ok: bool) {
    && used == (if |e.text| < |out| then |e.text| else |out| - 1) && used < |out|
    && out[..used] == e.text[..used] && out[used] == '\0'
    && (ok <==> e.complete && |e.text| < |out|)
  }

  ghost predicate Sorted(messages: seq<Definition>) {
    forall i, j :: 0 <= i < j < |messages| ==> messages[i].id < messages[j].id
  }

  // The whole routine: the text of the one message with this id, or the fallback if there is none. If the event
  // passed the parameter count of that message, nothing is missing and only the capacity can cut it.
  method FormatLogMessage(messages: seq<Definition>, id: nat, block: LogParamBlock, short: bool,
                          render: LogParam -> string, output: array<char>)
    returns (ok: bool, used: nat)
    requires Sorted(messages) && block.Valid()
    modifies output
    ensures output.Length == 0 ==> !ok
    ensures output.Length > 0 && (forall d :: d in messages ==> d.id != id) ==>
              Written(FullText(None, id, short, block.params, render), output[..], used, ok)
    ensures forall d :: output.Length > 0 && d in messages && d.id == id ==>
              Written(FullText(Some(d), id, short, block.params, render), output[..], used, ok)
    ensures forall d :: output.Length > 0 && d in messages && d.id == id && ParamCount(d) == |block.params| ==>
              (ok <==> |FullText(Some(d), id, short, block.params, render).text| < output.Length)
  {
    if output.Length == 0 { return false, 0; }
    var definition := FindLogMessage(messages, id);
    if definition.None? {
      ok, used := FormatUnknown(id, block, render, output);
    } else {
      var d := definition.value;
      assert forall e :: e in messages && e.id == id ==> e == d;
      ok, used := FormatText(if short && d.shortText.Some? then d.shortText.value else d.text, block, render, output);
      if ParamCount(d) == |block.params| { TemplateAgreement(d, block.params, render); }
    }
  }

  method FormatUnknown(id: nat, block: LogParamBlock, render: LogParam -> string, output: array<char>)
    returns (ok: bool, used: nat)
    requires block.Valid() && output.Length > 0
    modifies output
    ensures Written(Expansion(UnknownText(id, block.params, render, |block.params|), true), output[..], used, ok)
  {
    var writer := new Writer(output);
    ghost var params := block.params;
    writer.PutText("Unknown message A" + (if id < 10 then "00" else if id < 100 then "0" else "") + Decimal(id));
    for i := 0 to block.count
      invariant writer.Valid() && writer.out == output && !writer.missing
      invariant block.Valid() && block.params == params
      invariant writer.full == UnknownText(id, params, render, i)
      modifies writer, output
    {
      var param := GetParam(block, i);
      var prefix := " p" + Decimal(i + 1) + "=";
      writer.PutText(prefix);
      writer.PutText(render(param.value));
    }
    ok, used := writer.ok, writer.used;
    output[used] := '\0';
  }

  // The output is the full expansion cut to capacity - 1, and the result says whether that lost anything.
  method FormatText(text: string, block: LogParamBlock, render: LogParam -> string, output: array<char>)
    returns (ok: bool, used: nat)
    requires block.Valid() && output.Length > 0
    modifies output
    ensures Written(Expand(text, block.params, render), output[..], used, ok)
  {
    var writer := new Writer(output);
    ghost var e, params := Expand(text, block.params, render), block.params;
    var i := 0;
    assert text[0..] == text;
    while i < |text|
      invariant 0 <= i <= |text| && writer.Valid() && writer.out == output
      invariant block.Valid() && block.params == params
      invariant Advances(text, text[i..], params, render, "", false, writer.full, writer.missing)
      modifies writer, output
    {
      i := FormatNext(text, i, block, render, writer);
    }
    assert text[|text|..] == "";
    EndOfText(text, block.params, render, writer.full, writer.missing);
    ok, used := writer.ok, writer.used;
    output[used] := '\0';
  }

  // One turn of the loop: a character, or a placeholder.
  method FormatNext(text: string, i: nat, block: LogParamBlock, render: LogParam -> string, writer: Writer)
    returns (next: nat)
    requires i < |text| && block.Valid() && writer.Valid() && writer.out as object != block.data
    modifies writer, writer.out
    ensures i < next <= |text| && writer.Valid()
    ensures Advances(text[i..], text[next..], block.params, render,
                     old(writer.full), old(writer.missing), writer.full, writer.missing)
  {
    if StartsHole(text[i..]) {
      next := FormatHole(text, i, block, render, writer);
    } else {
      assert text[i..][1..] == text[i + 1..];
      PlainCharacter(text[i..], block.params, render, writer.full, writer.missing);
      writer.Put(text[i]);
      next := i + 1;
    }
  }

  lemma PlainCharacter(u: string, params: seq<LogParam>, render: LogParam -> string, full: string, missing: bool)
    requires u != [] && !StartsHole(u)
    ensures Advances(u, u[1..], params, render, full, missing, full + [u[0]], missing)
  {
  }

  // Having put full' instead of full, what is left to put is the expansion of u' instead of that of u.
  ghost predicate Advances(u: string, u': string, params: seq<LogParam>, render: LogParam -> string,
                           full: string, missing: bool, full': string, missing': bool)
  {
    var now, rest := Expand(u, params, render), Expand(u', params, render);
    full + now.text == full' + rest.text && (!missing && now.complete <==> !missing' && rest.complete)
  }

  lemma EndOfText(text: string, params: seq<LogParam>, render: LogParam -> string, full: string, missing: bool)
    requires Advances(text, "", params, render, "", false, full, missing)
    ensures Expand(text, params, render) == Expansion(full, !missing)
  {
    assert "" + Expand(text, params, render).text == Expand(text, params, render).text;
    assert full + "" == full;
  }

  method FormatHole(text: string, i: nat, block: LogParamBlock, render: LogParam -> string, writer: Writer)
    returns (next: nat)
    requires i < |text| && StartsHole(text[i..]) && block.Valid() && writer.Valid()
             && writer.out as object != block.data
    modifies writer, writer.out
    ensures i < next <= |text| && writer.Valid()
    ensures Advances(text[i..], text[next..], block.params, render,
                     old(writer.full), old(writer.missing), writer.full, writer.missing)
  {
    var param;
    param, next := ReadHole(text, i, block);
    ghost var full, missing := writer.full, writer.missing;
    if param.None? {
      writer.Miss();
      MissingHole(text[i..], text[next..], block.params, render, full, missing, writer.full);
    } else {
      writer.PutText(render(param.value));
      FilledHole(text[i..], text[next..], block.params, render, full, missing, writer.full);
    }
  }

  // The parameter for the placeholder at position i, and the position behind it.
  method ReadHole(text: string, i: nat, block: LogParamBlock) returns (param: Option<LogParam>, next: nat)
    requires i < |text| && StartsHole(text[i..]) && block.Valid()
    ensures i < next <= |text|
    ensures IsHoleRead(text[i..], block.params, param, text[next..])
  {
    var index, cursor := ReadIndex(text, i + 2);
    param := HoleParam(text, cursor, index, block);
    if param.None? {
      next := SkipBrace(text, cursor);
    } else {
      next := cursor + 1;
    }
    HoleIsRead(text, i, index, cursor, block.params, param, next);
  }

  // The placeholder at the front of u has this parameter, or none, and this is what stands behind it.
  predicate IsHoleRead(u: string, params: seq<LogParam>, param: Option<LogParam>, rest: string)
    requires StartsHole(u)
  {
    if GoodHole(u) && HoleIndex(u) <= |params|
    then param == Some(params[HoleIndex(u) - 1]) && rest == u[HoleEnd(u) + 1..]
    else param == None && rest == AfterBrace(u[HoleEnd(u)..])
  }

  lemma HoleIsRead(text: string, i: nat, index: nat, cursor: nat, params: seq<LogParam>,
                   param: Option<LogParam>, next: nat)
    requires i < |text| && StartsHole(text[i..]) && i + 2 <= cursor <= |text| && next <= |text|
    requires (index, cursor - (i + 2)) == ScanIndex(text[i + 2..], 0)
    requires param == if cursor < |text| && text[cursor] == '}' && 1 <= index <= LOG_MAX_PARAMS && index <= |params|
                      then Some(params[index - 1]) else None
    requires if param.Some? then next == cursor + 1 else text[next..] == AfterBrace(text[cursor..])
    ensures IsHoleRead(text[i..], params, param, text[next..])
  {
    HoleAt(text, i, index, cursor);
  }

  // What the digits at position i + 2 say of the placeholder at position i.
  lemma HoleAt(text: string, i: nat, index: nat, cursor: nat)
    requires i < |text| && StartsHole(text[i..]) && i + 2 <= cursor <= |text|
    requires (index, cursor - (i + 2)) == ScanIndex(text[i + 2..], 0)
    ensures var u := text[i..];
            && HoleIndex(u) == index && HoleEnd(u) == cursor - i && u[HoleEnd(u)..] == text[cursor..]
            && (GoodHole(u) <==> cursor < |text| && text[cursor] == '}' && 1 <= index <= LOG_MAX_PARAMS)
            && (cursor < |text| ==> u[HoleEnd(u) + 1..] == text[cursor + 1..])
  {
    SuffixOfSuffix(text, i, 2);
    SuffixOfSuffix(text, i, cursor - i);
    if cursor < |text| { SuffixOfSuffix(text, i, cursor + 1 - i); }
  }

  method HoleParam(text: string, cursor: nat, index: nat, block: LogParamBlock) returns (param: Option<LogParam>)
    requires block.Valid()
    ensures param == if cursor < |text| && text[cursor] == '}' && 1 <= index <= LOG_MAX_PARAMS
                        && index <= |block.params|
                     then Some(block.params[index - 1]) else None
  {
    if cursor < |text| && text[cursor] == '}' && 1 <= index <= LOG_MAX_PARAMS {
      param := GetParam(block, index - 1);
    } else {
      param := None;
    }
  }

  lemma FilledHole(u: string, u': string, params: seq<LogParam>, render: LogParam -> string, full: string,
                   missing: bool, full': string)
    requires StartsHole(u) && GoodHole(u) && HoleIndex(u) <= |params| && u' == u[HoleEnd(u) + 1..]
    requires full' == full + render(params[HoleIndex(u) - 1])
    ensures Advances(u, u', params, render, full, missing, full', missing)
  {
  }

  lemma MissingHole(u: string, u': string, params: seq<LogParam>, render: LogParam -> string, full: string,
                    missing: bool, full': string)
    requires StartsHole(u) && !(GoodHole(u) && HoleIndex(u) <= |params|) && u' == AfterBrace(u[HoleEnd(u)..])
    requires full' == full + "<missing>"
    ensures Advances(u, u', params, render, full, missing, full', true)
  {
  }
}
