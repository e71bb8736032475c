/** The kernel command line: space-separated key=value pieces in which quotes protect spaces. */
module Cmdline {
  import opened Bytes

  type Pair = (string, string)

  // ------------------------------------------------------------ one pass

  /** Splits at spaces outside quotes; every quote toggles and disappears. A quote left open runs to
      the end. */
  function Split(s: string, quoted: bool, piece: string): (r: seq<string>)
    ensures |r| >= 1
    decreases |s|
  {
    if s == [] then [piece]
    else if s[0] == '"' then Split(s[1..], !quoted, piece)
    else if s[0] == ' ' && !quoted then [piece] + Split(s[1..], false, [])
    else Split(s[1..], quoted, piece + [s[0]])
  }

  /** Where the first `c` is, or the length. */
  function IndexOf(s: string, c: char): (i: nat)
    ensures i <= |s| && c !in s[..i] && (i < |s| ==> s[i] == c)
  {
    if s == [] || s[0] == c then 0 else 1 + IndexOf(s[1..], c)
  }

  /** A piece is a key with a value; without `=` the value is empty, and an empty piece is nothing. */
  function Emit(piece: string): seq<Pair> {
    var i := IndexOf(piece, '=');
    if i < |piece| then [(piece[..i], piece[i + 1..])]
    else if piece == "" then [] else [(piece, "")]
  }

  function EmitAll(pieces: seq<string>): seq<Pair> {
    if pieces == [] then [] else Emit(pieces[0]) + EmitAll(pieces[1..])
  }

  function Parse(s: string): seq<Pair> {
    EmitAll(Split(s, false, []))
  }

  // ------------------------------------------------------------ skipping

  function Strip(s: string): string {
    if s == [] then []
    else Strip(s[..|s| - 1]) + if s[|s| - 1] == '"' then [] else [s[|s| - 1]]
  }

  lemma StripSnoc(s: string, c: char)
    ensures Strip(s + [c]) == Strip(s) + if c == '"' then [] else [c]
  {
    assert (s + [c])[..|s|] == s;
  }

  /** Text without quotes is kept. */
  lemma {:induction false} StripPlain(a: string, b: string)
    requires '"' !in b
    ensures Strip(a + b) == Strip(a) + b
    decreases |b|
  {
    if b == [] {
      assert a + b == a;
    } else {
      var front, c := b[..|b| - 1], b[|b| - 1];
      StripPlain(a, front);
      assert a + b == a + front + [c];
      StripSnoc(a + front, c);
      assert c in b;
      assert b == front + [c];
    }
  }

  /** Plain characters go to the piece; inside quotes spaces do too. */
  lemma {:induction false} SplitPlain(s: string, quoted: bool, piece: string, k: nat)
    requires k <= |s| && '"' !in s[..k] && (quoted || ' ' !in s[..k])
    ensures Split(s, quoted, piece) == Split(s[k..], quoted, piece + s[..k])
    decreases k
  {
    if k > 0 {
      assert s[..k] == [s[0]] + s[1..][..k - 1];
      SplitPlain(s[1..], quoted, piece + [s[0]], k - 1);
      assert s[1..][k - 1..] == s[k..];
      assert piece + [s[0]] + s[1..][..k - 1] == piece + s[..k];
    } else {
      assert piece + s[..0] == piece;
    }
  }

  lemma SplitToEnd(s: string, quoted: bool, piece: string)
    requires '"' !in s && (quoted || ' ' !in s)
    ensures Split(s, quoted, piece) == [piece + s]
  {
    assert s[..|s|] == s;
    SplitPlain(s, quoted, piece, |s|);
  }

  // ------------------------------------------------------------ the parser

  /** The first position from `from` on whose character is in `set_`. */
  method FindFirstOf(s: string, set_: set<char>, from: nat) returns (r: Option<nat>)
    requires from <= |s|
    ensures r.None? ==> forall c <- s[from..] :: c !in set_
    ensures r.Some? ==> from <= r.value < |s| && s[r.value] in set_ && forall c <- s[from..r.value] :: c !in set_
  {
    var i := from;
    while i < |s|
      invariant from <= i <= |s| && forall c <- s[from..i] :: c !in set_
    {
      if s[i] in set_ { return Some(i); }
      assert s[from..i + 1] == s[from..i] + [s[i]];
      i := i + 1;
    }
    assert s[from..i] == s[from..];
    return None;
  }

  /** Finds the end of the piece that starts at `base`, skipping quoted spans. */
  method FindEnd(cmdline: string, base: nat) returns (found: Option<nat>)
    requires base <= |cmdline|
    ensures found.None? ==> Split(cmdline[base..], false, []) == [Strip(cmdline[base..])]
    ensures found.Some? ==>
              && base <= found.value < |cmdline|
              && Split(cmdline[base..], false, []) ==
                 [Strip(cmdline[base..found.value])] + Split(cmdline[found.value + 1..], false, [])
  {
    hide Split, Strip;
    var from := base;
    assert cmdline[base..base] == [];
    StripEmpty();
    while true
      invariant base <= from <= |cmdline|
      invariant Split(cmdline[base..], false, []) == Split(cmdline[from..], false, Strip(cmdline[base..from]))
      decreases |cmdline| - from
    {
      found := FindFirstOf(cmdline, {' ', '"'}, from);
      if found.None? {
        SplitToEnd(cmdline[from..], false, Strip(cmdline[base..from]));
        assert cmdline[from..|cmdline|] == cmdline[from..] && cmdline[base..|cmdline|] == cmdline[base..];
        Extend(cmdline, base, from, |cmdline|);
        return;
      }
      PassPlain(cmdline, base, from, found.value, false);
      if cmdline[found.value] == ' ' {
        PassSpace(cmdline, found.value, Strip(cmdline[base..found.value]));
        return;
      }
      var open := found.value;
      found := FindFirstOf(cmdline, {'"'}, open + 1);
      if found.None? {
        PassOpenQuote(cmdline, base, from, open);
        return;
      }
      PassQuoted(cmdline, base, from, open, found.value);
      from := found.value + 1;
    }
  }

  lemma StripEmpty()
    ensures Strip([]) == []
  {
  }

  lemma PassSpace(s: string, at: nat, piece: string)
    requires at < |s| && s[at] == ' '
    ensures Split(s[at..], false, piece) == [piece] + Split(s[at + 1..], false, [])
  {
    assert s[at..][0] == ' ' && s[at..][1..] == s[at + 1..];
  }

  lemma Extend(s: string, base: nat, from: nat, to: nat)
    requires base <= from <= to <= |s| && '"' !in s[from..to]
    ensures Strip(s[base..to]) == Strip(s[base..from]) + s[from..to]
  {
    assert s[base..to] == s[base..from] + s[from..to];
    StripPlain(s[base..from], s[from..to]);
  }

  lemma PassPlain(s: string, base: nat, from: nat, to: nat, quoted: bool)
    requires base <= from <= to <= |s| && '"' !in s[from..to] && (quoted || ' ' !in s[from..to])
    ensures Split(s[from..], quoted, Strip(s[base..from])) == Split(s[to..], quoted, Strip(s[base..to]))
  {
    assert s[from..][..to - from] == s[from..to];
    SplitPlain(s[from..], quoted, Strip(s[base..from]), to - from);
    assert s[from..][to - from..] == s[to..];
    Extend(s, base, from, to);
  }

  /** A quote changes nothing but the mode. */
  lemma PassQuote(s: string, base: nat, at: nat, quoted: bool)
    requires base <= at < |s| && s[at] == '"'
    ensures Split(s[at..], quoted, Strip(s[base..at])) == Split(s[at + 1..], !quoted, Strip(s[base..at + 1]))
  {
    assert s[at..][1..] == s[at + 1..];
    assert s[base..at + 1] == s[base..at] + ['"'];
    StripSnoc(s[base..at], '"');
    assert Strip(s[base..at]) + [] == Strip(s[base..at]);
    assert s[at..][0] == '"';
  }

  lemma PassQuoted(s: string, base: nat, from: nat, open: nat, close: nat)
    requires base <= from <= open < close < |s| && s[open] == '"' && s[close] == '"'
    requires '"' !in s[from..open] && ' ' !in s[from..open] && '"' !in s[open + 1..close]
    ensures Split(s[from..], false, Strip(s[base..from])) == Split(s[close + 1..], false, Strip(s[base..close + 1]))
  {
    PassPlain(s, base, from, open, false);
    PassQuote(s, base, open, false);
    PassPlain(s, base, open + 1, close, true);
    PassQuote(s, base, close, true);
  }

  lemma PassOpenQuote(s: string, base: nat, from: nat, open: nat)
    requires base <= from <= open < |s| && s[open] == '"'
    requires '"' !in s[from..open] && ' ' !in s[from..open] && '"' !in s[open + 1..]
    ensures Split(s[from..], false, Strip(s[base..from])) == [Strip(s[base..])]
  {
    PassPlain(s, base, from, open, false);
    PassQuote(s, base, open, false);
    assert s[open + 1..|s|] == s[open + 1..];
    SplitToEnd(s[open + 1..], true, Strip(s[base..open + 1]));
    Extend(s, base, open + 1, |s|);
    assert s[base..|s|] == s[base..];
  }

  /** The pair of a piece; an empty piece has none. */
  method EmitPiece(piece: string) returns (ps: seq<Pair>)
    ensures ps == Emit(piece)
  {
    var i := IndexOf(piece, '=');
    if i == |piece| {
      return if piece != "" then [(piece, "")] else [];
    }
    return [(piece[..i], piece[i + 1..])];
  }

  /** Equals the one-pass splitter on every string, open quotes included. */
  method ParseCmdline(cmdline: string) returns (result: seq<Pair>)
    ensures result == Parse(cmdline)
  {
    hide Split, EmitAll, Strip, Emit;
    result := [];
    var base := 0;
    assert cmdline[0..] == cmdline;
    while true
      invariant base <= |cmdline| && result + EmitAll(Split(cmdline[base..], false, [])) == Parse(cmdline)
      decreases |cmdline| - base
    {
      var found := FindEnd(cmdline, base);
      var source := if found.None? then cmdline[base..] else cmdline[base..found.value];
      var piece := RemoveQuotes(source);
      ghost var rest := if found.None? then [] else Split(cmdline[found.value + 1..], false, []);
      assert found.None? ==> [piece] + rest == [piece];
      EmitNext(result, piece, rest);
      var pair := EmitPiece(piece);
      result := result + pair;
      if found.None? {
        EmitNothing();
        return;
      }
      base := found.value + 1;
    }
  }

  lemma EmitNext(before: seq<Pair>, piece: string, rest: seq<string>)
    ensures before + EmitAll([piece] + rest) == before + Emit(piece) + EmitAll(rest)
  {
    hide Emit;
    EmitFirst(piece, rest);
  }

  lemma EmitNothing()
    ensures EmitAll([]) == []
  {
  }

  lemma EmitFirst(piece: string, rest: seq<string>)
    ensures EmitAll([piece] + rest) == Emit(piece) + EmitAll(rest)
  {
  }

  method RemoveQuotes(s: string) returns (r: string)
    ensures r == Strip(s)
  {
    r := [];
    for i := 0 to |s|
      invariant r == Strip(s[..i])
    {
      assert s[..i + 1] == s[..i] + [s[i]];
      StripSnoc(s[..i], s[i]);
      if s[i] != '"' { r := r + [s[i]]; }
    }
    assert s[..|s|] == s;
  }

  // ------------------------------------------------------------ printing

  /** How a pair may be written: a bare word for an empty value, or a value with or without quotes. */
  datatype Word = Bare(key: string) | Plain(key: string, value: string) | Quoted(key: string, value: string)

  /** The key is a word without `=`; only a quoted value may have spaces. */
  predicate Printable(w: Word) {
    && w.key != "" && ' ' !in w.key && '"' !in w.key && '=' !in w.key
    && (!w.Bare? ==> '"' !in w.value) && (w.Plain? ==> ' ' !in w.value)
  }

  function PairOf(w: Word): Pair { if w.Bare? then (w.key, "") else (w.key, w.value) }

  function PrintWord(w: Word): string {
    match w
    case Bare(key) => key
    case Plain(key, value) => key + "=" + value
    case Quoted(key, value) => key + "=" + ['"'] + value + ['"']
  }

  /** What the word is without its quotes. */
  function PieceOf(w: Word): string { if w.Bare? then w.key else w.key + "=" + w.value }

  function Print(ws: seq<Word>): string {
    if ws == [] then "" else if |ws| == 1 then PrintWord(ws[0]) else PrintWord(ws[0]) + " " + Print(ws[1..])
  }

  lemma SplitWord(w: Word, rest: string)
    requires Printable(w)
    ensures Split(PrintWord(w) + rest, false, []) == Split(rest, false, PieceOf(w))
  {
    var s := PrintWord(w) + rest;
    if w.Quoted? {
      SplitQuoted(w, rest);
    } else {
      var n := |PieceOf(w)|;
      assert s[..n] == PieceOf(w) && s[n..] == rest && [] + s[..n] == PieceOf(w);
      SplitPlain(s, false, [], n);
    }
  }

  lemma SplitQuoted(w: Word, rest: string)
    requires Printable(w) && w.Quoted?
    ensures Split(PrintWord(w) + rest, false, []) == Split(rest, false, PieceOf(w))
  {
    var s := PrintWord(w) + rest;
    var n, m := |w.key|, |w.value|;
    assert s[..n + 1] == w.key + "=";
    SplitPlain(s, false, [], n + 1);
    var s1 := s[n + 1..];
    assert [] + s[..n + 1] == w.key + "=";
    assert s1[0] == '"' && s1[1..][..m] == w.value;
    SplitPlain(s1[1..], true, w.key + "=", m);
    var s2 := s1[1..][m..];
    assert s2 == ['"'] + rest;
    assert s2[1..] == rest;
  }

  lemma {:induction false} IndexOfIs(s: string, c: char, k: nat)
    requires k < |s| && s[k] == c && c !in s[..k]
    ensures IndexOf(s, c) == k
    decreases k
  {
    if k > 0 {
      assert s[..k][0] == s[0];
      assert forall x <- s[1..][..k - 1] :: x in s[..k];
      IndexOfIs(s[1..], c, k - 1);
    }
  }

  lemma {:induction false} IndexOfNone(s: string, c: char)
    requires c !in s
    ensures IndexOf(s, c) == |s|
  {
    if s != [] {
      IndexOfNone(s[1..], c);
    }
  }

  lemma EmitWord(w: Word)
    requires Printable(w)
    ensures Emit(PieceOf(w)) == [PairOf(w)]
  {
    var piece := PieceOf(w);
    if w.Bare? {
      IndexOfNone(piece, '=');
    } else {
      assert piece[|w.key|] == '=' && piece[..|w.key|] == w.key;
      IndexOfIs(piece, '=', |w.key|);
      assert piece[|w.key| + 1..] == w.value;
    }
  }

  function Pairs(ws: seq<Word>): (ps: seq<Pair>)
    ensures |ps| == |ws| && forall i :: 0 <= i < |ws| ==> ps[i] == PairOf(ws[i])
  {
    seq(|ws|, i requires 0 <= i < |ws| => PairOf(ws[i]))
  }

  /** Parsing undoes printing, however each pair is written. */
  lemma {:induction false} ParsePrinted(ws: seq<Word>)
    requires forall i :: 0 <= i < |ws| ==> Printable(ws[i])
    ensures Parse(Print(ws)) == Pairs(ws)
    decreases |ws|
  {
    if ws != [] {
      hide PrintWord, PieceOf, Emit, Printable;
      var w := ws[0];
      EmitWord(w);
      if |ws| == 1 {
        assert PrintWord(w) + "" == PrintWord(w);
        SplitWord(w, "");
        EmitFirst(PieceOf(w), []);
        assert [PieceOf(w)] + [] == [PieceOf(w)];
      } else {
        ParsePrinted(ws[1..]);
        var rest := " " + Print(ws[1..]);
        assert Print(ws) == PrintWord(w) + rest;
        SplitWord(w, rest);
        assert rest[1..] == Print(ws[1..]);
        EmitFirst(PieceOf(w), Split(Print(ws[1..]), false, []));
        assert [PairOf(w)] + Pairs(ws[1..]) == Pairs(ws);
      }
    }
  }
}
