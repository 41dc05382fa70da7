/**
 What log templates mean (src/log_params.cpp, src/log_messages.cpp): a template is a sequence of characters and
 numbered placeholders, its expansion is their texts one after the other, and its parameter count is the largest number.
 */
module LogPieces {
  import opened Basics
  import opened LogParams
  import opened LogTemplate

  // A character of the text, or the placeholder of parameter 1 to 12.
  datatype Piece = Plain(c: char) | Hole(index: nat)

  function Numeral(n: nat): string
    requires n < 100
  {
    if n < 10 then [('0' as int + n) as char] else [('0' as int + n / 10) as char, ('0' as int + n % 10) as char]
  }

  // How a piece is written in a template.
  function Notation(p: Piece): string {
    match p
    case Plain(c) => [c]
    case Hole(index) => "{p" + (if index < 100 then Numeral(index) else "") + "}"
  }

  function Template(ps: seq<Piece>): string {
    if ps == [] then "" else Notation(ps[0]) + Template(ps[1..])
  }

  // Placeholders have the numbers 1 to 12, and no two characters look like the start of one.
  predicate IsPlainText(ps: seq<Piece>) {
    && (forall i :: 0 <= i < |ps| && ps[i].Hole? ==> 1 <= ps[i].index <= 12)
    && (forall i :: 0 < i < |ps| ==> !(ps[i - 1] == Plain('{') && ps[i] == Plain('p')))
  }

  // What a piece shows.
  function Shown(p: Piece, params: seq<LogParam>, render: LogParam -> string): string {
    match p
    case Plain(c) => [c]
    case Hole(index) => if 1 <= index <= |params| then render(params[index - 1]) else "<missing>"
  }

  function AllShown(ps: seq<Piece>, params: seq<LogParam>, render: LogParam -> string): string {
    if ps == [] then "" else Shown(ps[0], params, render) + AllShown(ps[1..], params, render)
  }

  // The largest number of a placeholder, or the given one.
  function Largest(ps: seq<Piece>, n: nat): nat {
    if ps == [] then n
    else Largest(ps[1..], if ps[0].Hole? && ps[0].index > n then ps[0].index else n)
  }

  // What stands behind a placeholder and what its number is.
  lemma HoleIsRead(n: nat, rest: string, t: string)
    requires 1 <= n <= 12 && t == Notation(Hole(n)) + rest
    ensures StartsHole(t) && GoodHole(t) && HoleIndex(t) == n && HoleEnd(t) < |t| && t[HoleEnd(t) + 1..] == rest
    ensures t[HoleEnd(t)..] == ['}'] + rest
  {
    assert t[2..] == Numeral(n) + (['}'] + rest);
    NumeralIsRead(n, ['}'] + rest);
  }

  lemma PlainIsNoHole(ps: seq<Piece>)
    requires IsPlainText(ps) && ps != [] && ps[0].Plain?
    ensures Template(ps) == [ps[0].c] + Template(ps[1..]) && !StartsHole(Template(ps))
  {
    if |ps| > 1 && ps[0] == Plain('{') {
      assert Template(ps)[1] == Template(ps[1..])[0];
      assert Template(ps[1..])[0] == Notation(ps[1])[0];
    }
  }

  // The expansion of a template shows its pieces one after the other...
  lemma {:induction false} ExpansionShowsPieces(ps: seq<Piece>, params: seq<LogParam>, render: LogParam -> string)
    requires IsPlainText(ps)
    ensures Expand(Template(ps), params, render).text == AllShown(ps, params, render)
  {
    if ps != [] {
      RestIsPlainText(ps);
      ExpansionShowsPieces(ps[1..], params, render);
      PieceShows(ps, params, render);
    }
  }

  // ... and is complete if and only if every placeholder has a parameter.
  lemma {:induction false} ExpansionIsCompleteIff(ps: seq<Piece>, params: seq<LogParam>, render: LogParam -> string)
    requires IsPlainText(ps)
    ensures Expand(Template(ps), params, render).complete <==>
            forall i :: 0 <= i < |ps| && ps[i].Hole? ==> ps[i].index <= |params|
  {
    if ps != [] {
      RestIsPlainText(ps);
      ExpansionIsCompleteIff(ps[1..], params, render);
      PieceShows(ps, params, render);
      assert forall i :: 0 < i < |ps| ==> ps[i] == ps[1..][i - 1];
    }
  }

  lemma RestIsPlainText(ps: seq<Piece>)
    requires IsPlainText(ps) && ps != []
    ensures IsPlainText(ps[1..])
  {
    assert forall i :: 0 < i < |ps| ==> ps[i] == ps[1..][i - 1];
  }

  // The first piece is shown, and the rest expanded.
  lemma PieceShows(ps: seq<Piece>, params: seq<LogParam>, render: LogParam -> string)
    requires IsPlainText(ps) && ps != []
    ensures var e, r := Expand(Template(ps), params, render), Expand(Template(ps[1..]), params, render);
            && e.text == Shown(ps[0], params, render) + r.text
            && (e.complete <==> (ps[0].Hole? ==> ps[0].index <= |params|) && r.complete)
  {
    var t, rest := Template(ps), Template(ps[1..]);
    if ps[0].Hole? {
      HoleShows(t, rest, ps[0].index, params, render);
    } else {
      PlainIsNoHole(ps);
      assert t[1..] == rest;
    }
  }

  lemma HoleShows(t: string, rest: string, n: nat, params: seq<LogParam>, render: LogParam -> string)
    requires 1 <= n <= 12 && t == Notation(Hole(n)) + rest
    ensures var e, r := Expand(t, params, render), Expand(rest, params, render);
            e.text == Shown(Hole(n), params, render) + r.text && (e.complete <==> n <= |params| && r.complete)
  {
    HoleIsRead(n, rest, t);
    assert AfterBrace(['}'] + rest) == rest by { assert (['}'] + rest)[1..] == rest; }
  }

  // The computed parameter count is the largest number of a placeholder.
  lemma {:induction false} CountIsLargest(ps: seq<Piece>, n: nat)
    requires IsPlainText(ps)
    ensures CountHoles(Template(ps), n) == Largest(ps, n)
  {
    if ps != [] {
      var t, rest := Template(ps), Template(ps[1..]);
      RestIsPlainText(ps);
      if ps[0].Hole? {
        var index := ps[0].index;
        HoleIsRead(index, rest, t);
        var m := if index > n then index else n;
        CountIsLargest(ps[1..], m);
        BraceCounts(rest, m);
      } else {
        PlainIsNoHole(ps);
        assert t[1..] == rest;
        CountIsLargest(ps[1..], n);
      }
    }
  }

  lemma BraceCounts(rest: string, n: nat)
    ensures CountHoles(['}'] + rest, n) == CountHoles(rest, n)
  {
    assert (['}'] + rest)[1..] == rest;
  }

  // A message whose long and short texts are such templates is accepted with exactly as many parameters as the larger
  // of their largest numbers, and then shows all of its pieces.
  lemma MessageShowsPieces(d: Definition, long: seq<Piece>, short: seq<Piece>, params: seq<LogParam>,
                           render: LogParam -> string)
    requires IsPlainText(long) && IsPlainText(short) && |params| <= 12
    requires d.text == Template(long) && d.shortText == Some(Template(short))
    ensures ParamCount(d) == Largest(long + short, 0)
    ensures ParamCount(d) == |params| ==>
              var showLong, showShort := AllShown(long, params, render), AllShown(short, params, render);
              forall id ::
                && FullText(Some(d), id, false, params, render) == Expansion(showLong, true)
                && FullText(Some(d), id, true, params, render) == Expansion(showShort, true)
                && FullText(Some(d.(shortText := None)), id, true, params, render) == Expansion(showLong, true)
  {
    CountIsLargest(long, 0);
    CountBound(d.text, 0);
    LargestIsSmall(long, 0);
    CountIsLargest(short, Largest(long, 0));
    LargestAppend(long, short, 0);
    if ParamCount(d) == |params| {
      TemplateAgreement(d, params, render);
      ExpansionShowsPieces(long, params, render);
      ExpansionShowsPieces(short, params, render);
    }
  }

  lemma {:induction false} LargestIsSmall(ps: seq<Piece>, n: nat)
    requires IsPlainText(ps) && n <= 12
    ensures Largest(ps, n) <= 12
  {
    if ps != [] {
      RestIsPlainText(ps);
      LargestIsSmall(ps[1..], if ps[0].Hole? && ps[0].index > n then ps[0].index else n);
    }
  }

  lemma {:induction false} LargestAppend(a: seq<Piece>, b: seq<Piece>, n: nat)
    ensures Largest(a + b, n) == Largest(b, Largest(a, n))
  {
    if a == [] {
      assert a + b == b;
    } else {
      assert (a + b)[1..] == a[1..] + b;
      LargestAppend(a[1..], b, if a[0].Hole? && a[0].index > n then a[0].index else n);
    }
  }

  // ---------- malformed placeholders ----------

  // A placeholder number that is 0 or above 12 shows as missing, whatever the parameters, and spoils the count.
  lemma BadHoleIsMissing(n: nat, rest: string, t: string, m: nat, params: seq<LogParam>, render: LogParam -> string)
    requires (n == 0 || 13 <= n < 100) && t == Notation(Hole(n)) + rest
    ensures Expand(t, params, render) == Expansion("<missing>" + Expand(rest, params, render).text, false)
    ensures CountHoles(t, m) == 255
  {
    var tail := ['}'] + rest;
    assert t[2..] == Numeral(n) + tail;
    NumeralIsRead(n, tail);
    assert HoleIndex(t) == n && t[HoleEnd(t)..] == tail;
    assert AfterBrace(tail) == rest by { assert tail[1..] == rest; }
  }

  lemma NumeralIsRead(n: nat, tail: string)
    requires n < 100 && tail != [] && tail[0] == '}'
    ensures ScanIndex(Numeral(n) + tail, 0) == (n, |Numeral(n)|)
  {
    var t := Numeral(n) + tail;
    if n < 10 {
      assert t[1..] == tail;
      assert ScanIndex(tail, n) == (n, 0);
    } else {
      assert t[1..][1..] == tail;
      assert ScanIndex(tail, n) == (n, 0);
      assert ScanIndex(t[1..], n / 10) == (n, 1);
    }
  }

  // One that is never closed shows as missing and swallows the rest.
  lemma OpenHoleIsMissing(rest: string, t: string, m: nat, params: seq<LogParam>, render: LogParam -> string)
    requires t == "{p" + rest && forall i :: 0 <= i < |rest| ==> rest[i] != '}'
    ensures Expand(t, params, render) == Expansion("<missing>", false) && CountHoles(t, m) == 255
  {
    assert forall i :: 2 <= i < |t| ==> t[i] == rest[i - 2];
    NothingAfterBrace(t[HoleEnd(t)..]);
  }

  lemma {:induction false} NothingAfterBrace(u: string)
    requires forall i :: 0 <= i < |u| ==> u[i] != '}'
    ensures AfterBrace(u) == ""
  {
    if u != [] { NothingAfterBrace(u[1..]); }
  }

  // ---------- the fallback text ----------

  // The number that a numeral stands for.
  function ValueOf(s: string): int {
    if s == "" then 0 else 10 * ValueOf(s[..|s| - 1]) + (s[|s| - 1] as int - '0' as int)
  }

  lemma {:induction false} DecimalStandsFor(n: nat)
    ensures ValueOf(Decimal(n)) == n && Decimal(n) != ""
    ensures forall i :: 0 <= i < |Decimal(n)| ==> '0' <= Decimal(n)[i] <= '9'
    ensures n > 0 ==> Decimal(n)[0] != '0'
  {
    var s := Decimal(n);
    if n >= 10 {
      DecimalStandsFor(n / 10);
      assert s[..|s| - 1] == Decimal(n / 10);
    } else {
      assert s[..|s| - 1] == "";
    }
  }

  // Each parameter adds its number and its text to the fallback...
  lemma FallbackGrows(id: nat, params: seq<LogParam>, render: LogParam -> string, n: nat)
    requires 0 < n <= |params|
    ensures UnknownText(id, params, render, n) ==
            UnknownText(id, params, render, n - 1) + " p" + Decimal(n) + "=" + render(params[n - 1])
  {
    var before, number, text := UnknownText(id, params, render, n - 1), Decimal(n), render(params[n - 1]);
    assert before + (" p" + number + "=") + text == before + " p" + number + "=" + text;
  }

  // ... which begins with the id in at least three digits.
  lemma FallbackNamesId(id: nat, params: seq<LogParam>, render: LogParam -> string)
    ensures var head := UnknownText(id, params, render, 0);
            && |head| >= 20 && head[..17] == "Unknown message A" && ValueOf(head[17..]) == id
            && (|head| > 20 ==> head[17] != '0')
  {
    var zeros := if id < 10 then "00" else if id < 100 then "0" else "";
    var digits := zeros + Decimal(id);
    var head := UnknownText(id, params, render, 0);
    assert head == "Unknown message A" + digits;
    assert head[..17] == "Unknown message A" && head[17..] == digits;
    DecimalStandsFor(id);
    DecimalLength(id);
    LeadingZeros(zeros, Decimal(id));
  }

  lemma DecimalLength(n: nat)
    ensures |Decimal(n)| == 1 <==> n < 10
    ensures |Decimal(n)| == 2 <==> 10 <= n < 100
  {
    if n >= 10 {
      assert |Decimal(n)| == |Decimal(n / 10)| + 1;
      if n >= 100 { assert |Decimal(n / 10)| == |Decimal(n / 10 / 10)| + 1 && |Decimal(n / 10 / 10)| >= 1; }
    }
  }

  lemma {:induction false} LeadingZeros(zeros: string, s: string)
    requires forall i :: 0 <= i < |zeros| ==> zeros[i] == '0'
    ensures ValueOf(zeros + s) == ValueOf(s)
    decreases |s|, |zeros|
  {
    if s != "" {
      assert (zeros + s)[..|zeros + s| - 1] == zeros + s[..|s| - 1];
      LeadingZeros(zeros, s[..|s| - 1]);
    } else if zeros != "" {
      assert (zeros + s)[..|zeros + s| - 1] == zeros[..|zeros| - 1] + s;
      LeadingZeros(zeros[..|zeros| - 1], s);
    }
  }
}
