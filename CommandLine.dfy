// Argument handling of the launcher: coercing a record's `args` field to a
// list (normalizeArgs) and the quote-aware command-line tokenizer
// (splitCommandLine), electron/main.js lines 50-89.

module CommandLine {
  import opened Text
  import opened Records

  // ---------------------------------------------------------------------
  // normalizeArgs
  // ---------------------------------------------------------------------

  /** `s.split(sep)` for a one-character separator: the pieces between the
      separators, empty pieces included, and one piece for the empty string. */
  function SplitOn(s: string, sep: char): (r: seq<string>)
    ensures |r| >= 1
    ensures forall i :: 0 <= i < |r| ==> sep !in r[i]
    decreases |s|
  {
    if s == [] then [[]]
    else
      var rest := SplitOn(s[1..], sep);
      if s[0] == sep then [[]] + rest
      else [[s[0]] + rest[0]] + rest[1..]
  }

  /** The pieces with the separator between each two of them (`join`). */
  function JoinWith(parts: seq<string>, sep: char): string
    decreases |parts|
  {
    if parts == [] then []
    else if |parts| == 1 then parts[0]
    else parts[0] + [sep] + JoinWith(parts[1..], sep)
  }

  /** Joining the pieces again gives back the string that was split. */
  lemma {:induction false} JoinSplit(s: string, sep: char)
    ensures JoinWith(SplitOn(s, sep), sep) == s
    decreases |s|
  {
    if s != [] {
      var rest := SplitOn(s[1..], sep);
      JoinSplit(s[1..], sep);
      if s[0] == sep {
        assert SplitOn(s, sep)[1..] == rest;
      } else {
        var ps := SplitOn(s, sep);
        if |rest| == 1 {
          assert ps == [[s[0]] + rest[0]];
        } else {
          assert ps[1..] == rest[1..];
          assert JoinWith(rest, sep) == rest[0] + [sep] + JoinWith(rest[1..], sep);
        }
      }
    }
  }

  /** Splitting a join of separator-free pieces gives back the pieces. */
  lemma {:induction false} SplitJoin(parts: seq<string>, sep: char)
    requires |parts| >= 1
    requires forall i :: 0 <= i < |parts| ==> sep !in parts[i]
    ensures SplitOn(JoinWith(parts, sep), sep) == parts
    decreases |parts|
  {
    if |parts| == 1 {
      SplitPiece(parts[0], [], sep);
    } else {
      SplitJoin(parts[1..], sep);
      SplitPiece(parts[0], JoinWith(parts[1..], sep), sep);
      assert parts == [parts[0]] + parts[1..];
    }
  }

  /** A separator-free piece is glued to the first piece of what follows it. */
  lemma {:induction false} SplitPiece(p: string, tail: string, sep: char)
    requires sep !in p
    ensures SplitOn(p, sep) == [p]
    ensures SplitOn(p + [sep] + tail, sep) == [p] + SplitOn(tail, sep)
    decreases |p|
  {
    if p == [] {
      assert [] + [sep] + tail == [sep] + tail;
      assert ([sep] + tail)[1..] == tail;
    } else {
      SplitPiece(p[1..], tail, sep);
      assert p == [p[0]] + p[1..];
      assert (p + [sep] + tail)[1..] == p[1..] + [sep] + tail;
    }
  }

  /** Every piece trimmed, one for one, in the same order. */
  function TrimAll(ps: seq<string>): (r: seq<string>)
    ensures |r| == |ps|
    ensures forall i :: 0 <= i < |r| ==> r[i] == Trim(ps[i])
  {
    if ps == [] then [] else [Trim(ps[0])] + TrimAll(ps[1..])
  }

  /** `.filter(Boolean)` on strings: drops the empty ones, keeps the order. */
  function DropEmpty(ps: seq<string>): (r: seq<string>)
    ensures |r| <= |ps|
    ensures forall i :: 0 <= i < |r| ==> r[i] != []
  {
    if ps == [] then []
    else if ps[0] == [] then DropEmpty(ps[1..])
    else [ps[0]] + DropEmpty(ps[1..])
  }

  /** `filter(Boolean)` treats the parts of a list one after the other, so
      the non-empty strings are all kept, in their order (`DropEmptyOne` says
      what happens to each string). */
  lemma {:induction false} DropEmptyAppend(a: seq<string>, b: seq<string>)
    ensures DropEmpty(a + b) == DropEmpty(a) + DropEmpty(b)
    decreases |a|
  {
    if a == [] {
      assert a + b == b;
    } else {
      assert (a + b)[1..] == a[1..] + b;
      DropEmptyAppend(a[1..], b);
    }
  }

  /** A single string is kept exactly when it is not empty. */
  lemma {:induction false} DropEmptyOne(p: string)
    ensures DropEmpty([p]) == if p == [] then [] else [p]
  {
    assert [p][1..] == [];
  }

  /** Two words separated by two spaces: the empty piece between the spaces
      is dropped and the words are kept in order. */
  lemma {:induction false} ArgTextDoubleSpace(a: string, b: string)
    requires a != [] && IsTrimmed(a) && ' ' !in a
    requires b != [] && IsTrimmed(b) && ' ' !in b
    ensures NormalizeArgs(ArgText(a + "  " + b)) == [a, b]
  {
    var ps: seq<string> := [a, [], b];
    assert SplitOn(a + "  " + b, ' ') == ps by {
      SplitPiece(b, [], ' ');
      SplitPiece([], b, ' ');
      SplitPiece(a, [' '] + b, ' ');
      assert a + [' '] + ([' '] + b) == a + "  " + b && [] + [' '] + b == [' '] + b;
    }
    assert TrimAll(ps) == ps by {
      TrimAllTrimmed(ps);
    }
    DropEmptyGap(a, b);
  }

  /** The empty piece between two words is dropped. */
  lemma {:induction false} DropEmptyGap(a: string, b: string)
    requires a != [] && b != []
    ensures DropEmpty([a, [], b]) == [a, b]
  {
    var ps: seq<string> := [a, [], b];
    assert ps[1..] == [[], b] && ps[1..][1..] == [b] && [b][1..] == [];
    assert DropEmpty([b]) == [b];
  }

  /** What `DropEmpty` keeps comes from its input. */
  lemma {:induction false} DropEmptyFrom(ps: seq<string>)
    ensures forall i :: 0 <= i < |DropEmpty(ps)| ==> DropEmpty(ps)[i] in ps
  {
    if ps != [] {
      DropEmptyFrom(ps[1..]);
      assert forall p :: p in ps[1..] ==> p in ps;
    }
  }

  /** Without empty pieces, nothing is dropped. */
  lemma {:induction false} DropEmptyKeeps(ps: seq<string>)
    requires forall i :: 0 <= i < |ps| ==> ps[i] != []
    ensures DropEmpty(ps) == ps
  {
    if ps != [] {
      DropEmptyKeeps(ps[1..]);
      assert ps == [ps[0]] + ps[1..];
    }
  }

  /** normalizeArgs: an array is taken as it is, a string is split at single
      spaces and every piece trimmed, empty pieces dropped; anything else is
      no arguments at all. */
  function NormalizeArgs(args: ArgsField): (r: seq<string>)
    ensures args.ArgList? ==> r == args.items
    ensures args.NoArgs? ==> r == []
    ensures args.ArgText? ==>
      forall i :: 0 <= i < |r| ==> r[i] != [] && IsTrimmed(r[i]) && ' ' !in r[i]
  {
    match args
    case ArgList(items) => items
    case ArgText(text) =>
      var r := DropEmpty(TrimAll(SplitOn(text, ' ')));
      CleanPieces(SplitOn(text, ' '), r);
      r
    case NoArgs => []
  }

  /** Pieces without a space, trimmed and with the empty ones dropped, are
      non-empty, trimmed and still without a space. */
  lemma {:induction false} CleanPieces(ps: seq<string>, kept: seq<string>)
    requires forall i :: 0 <= i < |ps| ==> ' ' !in ps[i]
    requires kept == DropEmpty(TrimAll(ps))
    ensures forall i :: 0 <= i < |kept| ==> kept[i] != [] && IsTrimmed(kept[i]) && ' ' !in kept[i]
    decreases |ps|
  {
    if ps != [] {
      var rest := DropEmpty(TrimAll(ps[1..]));
      CleanPieces(ps[1..], rest);
      var t := Trim(ps[0]);
      assert TrimAll(ps) == [t] + TrimAll(ps[1..]);
      assert ([t] + TrimAll(ps[1..]))[1..] == TrimAll(ps[1..]);
      TrimKeepsOut(ps[0], ' ');
      if t != [] {
        var r := [t] + rest;
        assert DropEmpty(TrimAll(ps)) == r;
        forall i | 0 <= i < |r| ensures r[i] != [] && IsTrimmed(r[i]) && ' ' !in r[i] {
          if i > 0 {
            assert r[i] == rest[i - 1];
          }
        }
      } else {
        assert DropEmpty(TrimAll(ps)) == rest;
      }
    }
  }

  /** A character absent from a string is absent from its trimmed form. */
  lemma {:induction false} TrimKeepsOut(s: string, c: char)
    requires c !in s
    ensures c !in Trim(s)
  {
    var t := TrimStart(s);
    assert c !in t;
    assert c !in TrimEnd(t);
  }

  /** Words without spaces and without surrounding whitespace, joined by
      single spaces, come back as the same words. */
  lemma {:induction false} ArgTextRoundTrip(words: seq<string>)
    requires forall i :: 0 <= i < |words| ==> words[i] != [] && IsTrimmed(words[i]) && ' ' !in words[i]
    ensures NormalizeArgs(ArgText(JoinWith(words, ' '))) == words
  {
    if words != [] {
      assert SplitOn(JoinWith(words, ' '), ' ') == words by {
        SplitJoin(words, ' ');
      }
      assert TrimAll(words) == words by {
        TrimAllTrimmed(words);
      }
      assert DropEmpty(words) == words by {
        DropEmptyKeeps(words);
      }
    } else {
      assert SplitOn([], ' ') == [[]];
      assert TrimAll([[]]) == [[]];
      assert DropEmpty([[]]) == DropEmpty([]);
    }
  }

  /** Trimming pieces that are already trimmed changes nothing. */
  lemma {:induction false} TrimAllTrimmed(ps: seq<string>)
    requires forall i :: 0 <= i < |ps| ==> IsTrimmed(ps[i])
    ensures TrimAll(ps) == ps
  {
    var r := TrimAll(ps);
    forall i | 0 <= i < |ps| ensures r[i] == ps[i] {
      assert r[i] == Trim(ps[i]);
    }
  }

  /** An args string yields no arguments exactly when it is blank. */
  lemma {:induction false} ArgTextBlank(text: string)
    ensures NormalizeArgs(ArgText(text)) == [] <==> AllSpace(text)
  {
    PiecesBlank(text, ' ');
    TrimmedPiecesBlank(SplitOn(text, ' '));
  }

  /** Every piece is blank. */
  predicate AllBlank(ps: seq<string>) {
    ps == [] || (AllSpace(ps[0]) && AllBlank(ps[1..]))
  }

  /** Trimming the pieces and dropping the empty ones leaves nothing exactly
      when every piece is blank. */
  lemma {:induction false} TrimmedPiecesBlank(ps: seq<string>)
    ensures DropEmpty(TrimAll(ps)) == [] <==> AllBlank(ps)
  {
    if ps != [] {
      TrimmedPiecesBlank(ps[1..]);
      assert TrimAll(ps) == [Trim(ps[0])] + TrimAll(ps[1..]);
      assert TrimAll(ps)[1..] == TrimAll(ps[1..]);
    }
  }

  /** Splitting at a whitespace separator gives only blank pieces exactly when
      the string is blank. */
  lemma {:induction false} PiecesBlank(s: string, sep: char)
    requires IsSpace(sep)
    ensures AllBlank(SplitOn(s, sep)) <==> AllSpace(s)
    decreases |s|
  {
    if s != [] {
      PiecesBlank(s[1..], sep);
      var rest := SplitOn(s[1..], sep);
      var ps := SplitOn(s, sep);
      AllSpaceCons(s[0], s[1..]);
      assert s == [s[0]] + s[1..];
      if s[0] == sep {
        assert ps[1..] == rest;
      } else {
        assert ps[1..] == rest[1..];
        AllSpaceCons(s[0], rest[0]);
      }
    }
  }

  lemma {:induction false} AllSpaceCons(c: char, t: string)
    ensures AllSpace([c] + t) <==> IsSpace(c) && AllSpace(t)
  {
    var s := [c] + t;
    assert s[0] == c;
    assert forall i :: 0 <= i < |t| ==> s[i + 1] == t[i];
    if IsSpace(c) && AllSpace(t) {
      forall i | 0 <= i < |s| ensures IsSpace(s[i]) {
        if i > 0 { assert s[i] == t[i - 1]; }
      }
    }
  }

  // ---------------------------------------------------------------------
  // splitCommandLine
  // ---------------------------------------------------------------------

  predicate IsQuoteMark(c: char) {
    c == '"' || c == '\''
  }

  /** The tokenizer's `quote` variable: `null`, or the quote character that
      opened the current quoted stretch. */
  datatype Quote = Unquoted | Quoted(mark: char)

  /** The tokenizer's state after a prefix of its input: the tokens pushed so
      far, the token being built, and the open quote. */
  datatype Scan = Scan(tokens: seq<string>, current: string, quote: Quote)

  /** One character. `escaped` tells whether the character before it is a
      backslash. An unescaped quote mark opens a quote when none is open and
      closes the open quote of its own kind; otherwise it is an ordinary
      character. Whitespace outside quotes ends the token being built. Every
      other character, escaped quote marks with their backslash included, is
      appended to the current token. */
  function Step(st: Scan, escaped: bool, c: char): (r: Scan)
    ensures r.tokens == st.tokens ||
      (st.quote == Unquoted && IsSpace(c) && st.current != [] && r.tokens == st.tokens + [st.current] && r.current == [])
  {
    if IsQuoteMark(c) && !escaped && st.quote == Unquoted then
      Scan(st.tokens, st.current, Quoted(c))
    else if IsQuoteMark(c) && !escaped && st.quote == Quoted(c) then
      Scan(st.tokens, st.current, Unquoted)
    else if st.quote == Unquoted && IsSpace(c) then
      if st.current != [] then Scan(st.tokens + [st.current], [], Unquoted) else st
    else
      Scan(st.tokens, st.current + [c], st.quote)
  }

  /** The state after reading `s` from the start. */
  function Feed(s: string): Scan
    decreases |s|
  {
    if s == [] then Scan([], [], Unquoted)
    else Step(Feed(s[..|s| - 1]), |s| > 1 && s[|s| - 2] == '\\', s[|s| - 1])
  }

  /** Every token pushed while reading is non-empty. */
  lemma {:induction false} FeedTokensNonEmpty(s: string)
    ensures forall i :: 0 <= i < |Feed(s).tokens| ==> Feed(s).tokens[i] != []
    decreases |s|
  {
    if s != [] {
      FeedTokensNonEmpty(s[..|s| - 1]);
    }
  }

  /** The end of the input: a non-empty token being built is pushed. */
  function Finish(st: Scan): seq<string> {
    if st.current != [] then st.tokens + [st.current] else st.tokens
  }

  /** splitCommandLine, as a function of its input: trim, then read the
      characters. Every token is non-empty, and a blank input has none. */
  function Tokenize(input: string): (r: seq<string>)
    ensures forall i :: 0 <= i < |r| ==> r[i] != []
    ensures AllSpace(input) ==> r == []
  {
    var source := Trim(input);
    if source == [] then []
    else
      FeedTokensNonEmpty(source);
      Finish(Feed(source))
  }

  /** On an input without surrounding whitespace the trimming does nothing. */
  lemma {:induction false} TokenizeTrimmed(s: string)
    requires s != [] && IsTrimmed(s)
    ensures Tokenize(s) == Finish(Feed(s))
  {
  }

  /** The tokenizer as the code runs it: one pass over the trimmed input with
      `tokens`, `current` and `quote` updated in place. */
  method SplitCommandLine(input: string) returns (tokens: seq<string>)
    ensures tokens == Tokenize(input)
  {
    var source := Trim(input);
    if source == [] {
      return [];
    }
    tokens := [];
    var current: string := [];
    var quote := Unquoted;
    for i := 0 to |source|
      invariant Feed(source[..i]) == Scan(tokens, current, quote)
    {
      var ch := source[i];
      var escaped := i > 0 && source[i - 1] == '\\';
      FeedNext(source, i);
      if IsQuoteMark(ch) && !escaped {
        if quote == Unquoted {
          quote := Quoted(ch);
          continue;
        }
        if quote == Quoted(ch) {
          quote := Unquoted;
          continue;
        }
      }
      if quote == Unquoted && IsSpace(ch) {
        if current != [] {
          tokens := tokens + [current];
          current := [];
        }
        continue;
      }
      current := current + [ch];
    }
    assert source[..|source|] == source;
    if current != [] {
      tokens := tokens + [current];
    }
  }

  /** Reading one more character of `source`. */
  lemma {:induction false} FeedNext(source: string, i: nat)
    requires i < |source|
    ensures Feed(source[..i + 1]) == Step(Feed(source[..i]), i > 0 && source[i - 1] == '\\', source[i])
  {
    assert source[..i + 1][..i] == source[..i];
    if i > 0 {
      assert source[..i + 1][i - 1] == source[i - 1];
    }
  }

  // ---------------------------------------------------------------------
  // What the tokenizer does with whole arguments
  // ---------------------------------------------------------------------

  /** Reading more input after a point where no quote is open and no token is
      being built: the tokens of the first part are followed by those of the
      second part read on its own. */
  lemma {:induction false} FeedAppend(x: string, y: string)
    requires x == [] || x[|x| - 1] != '\\'
    requires Feed(x).current == [] && Feed(x).quote == Unquoted
    ensures Feed(x + y) == Scan(Feed(x).tokens + Feed(y).tokens, Feed(y).current, Feed(y).quote)
    decreases |y|
  {
    if y == [] {
      assert x + y == x;
    } else {
      var y' := y[..|y| - 1];
      FeedAppend(x, y');
      assert y == y' + [y[|y| - 1]];
      FeedAppendNext(x, y', y[|y| - 1]);
    }
  }

  /** One more character read after `x` and after `y` on its own. */
  lemma {:induction false} FeedAppendNext(x: string, y: string, c: char)
    requires x == [] || x[|x| - 1] != '\\'
    requires Feed(x + y) == Scan(Feed(x).tokens + Feed(y).tokens, Feed(y).current, Feed(y).quote)
    ensures Feed(x + (y + [c])) == Scan(Feed(x).tokens + Feed(y + [c]).tokens, Feed(y + [c]).current, Feed(y + [c]).quote)
  {
    var xy := x + (y + [c]);
    var esc := |y| > 0 && y[|y| - 1] == '\\';
    assert Feed(xy) == Step(Feed(x + y), esc, c) by {
      assert xy[..|xy| - 1] == x + y && xy[|xy| - 1] == c;
      if |y| > 0 {
        assert xy[|xy| - 2] == y[|y| - 1];
      } else if x != [] {
        assert xy[|xy| - 2] == x[|x| - 1];
      }
    }
    assert Feed(y + [c]) == Step(Feed(y), esc, c) by {
      assert (y + [c])[..|y|] == y;
      if |y| > 0 {
        assert (y + [c])[|y| - 1] == y[|y| - 1];
      }
    }
    StepShift(Feed(x).tokens, Feed(y), esc, c);
  }

  /** A step does not look at the tokens already pushed. */
  lemma {:induction false} StepShift(ts: seq<string>, st: Scan, escaped: bool, c: char)
    ensures var next := Step(st, escaped, c);
      Step(Scan(ts + st.tokens, st.current, st.quote), escaped, c) == Scan(ts + next.tokens, next.current, next.quote)
  {
    assert (ts + st.tokens) + [st.current] == ts + (st.tokens + [st.current]);
  }

  /** `e` is read as exactly one complete token `t`: `e` starts and ends
      with a non-whitespace character and leaves no quote open. */
  ghost predicate Lexes(e: string, t: string) {
    e != [] && !IsSpace(e[0]) && !IsSpace(e[|e| - 1])
    && t != [] && Feed(e) == Scan([], t, Unquoted)
  }

  /** Non-empty runs of whitespace between arguments. */
  predicate IsBlank(sep: string) {
    sep != [] && AllSpace(sep)
  }

  /** The arguments `es` written one after another with the separators
      `seps` between them. */
  function Glue(es: seq<string>, seps: seq<string>): string
    requires |es| >= 1 && |seps| == |es| - 1
    decreases |es|
  {
    if |es| == 1 then es[0] else es[0] + seps[0] + Glue(es[1..], seps[1..])
  }

  /** Whitespace outside quotes pushes the token being built and adds
      nothing. */
  lemma {:induction false} FeedBlank(x: string, sep: string)
    requires Feed(x).quote == Unquoted
    requires AllSpace(sep)
    ensures Feed(x + sep).quote == Unquoted
    ensures Feed(x + sep) == if sep == [] then Feed(x) else Scan(Finish(Feed(x)), [], Unquoted)
    decreases |sep|
  {
    if sep == [] {
      assert x + sep == x;
    } else {
      var sep' := sep[..|sep| - 1];
      FeedBlank(x, sep');
      assert (x + sep)[..|x + sep| - 1] == x + sep';
    }
  }

  /** `es` glued with `seps` between them is a run of lexemes: the i-th
      argument is read as the token `ts[i]`, and every separator is blank.
      Stated one argument at a time, the way `Glue` builds the text. */
  ghost predicate Lexemes(es: seq<string>, ts: seq<string>, seps: seq<string>)
    decreases |es|
  {
    |es| >= 1 && |ts| == |es| && |seps| == |es| - 1 && Lexes(es[0], ts[0])
    && (|es| > 1 ==> IsBlank(seps[0]) && Lexemes(es[1..], ts[1..], seps[1..]))
  }

  /** Arguments that each lex, with blanks between them, are a run of
      lexemes. */
  lemma {:induction false} LexemesOf(es: seq<string>, ts: seq<string>, seps: seq<string>)
    requires |es| >= 1 && |ts| == |es| && |seps| == |es| - 1
    requires forall i :: 0 <= i < |es| ==> Lexes(es[i], ts[i])
    requires forall i :: 0 <= i < |seps| ==> IsBlank(seps[i])
    ensures Lexemes(es, ts, seps)
    decreases |es|
  {
    if |es| > 1 {
      LexemesOf(es[1..], ts[1..], seps[1..]);
    }
  }

  /** Reading glued arguments: every argument but the last is a pushed token,
      the last is the token being built. */
  lemma {:induction false} FeedGlue(es: seq<string>, ts: seq<string>, seps: seq<string>)
    requires Lexemes(es, ts, seps)
    ensures Feed(Glue(es, seps)) == Scan(ts[..|ts| - 1], ts[|ts| - 1], Unquoted)
    decreases |es|
  {
    if |es| > 1 {
      FeedGlue(es[1..], ts[1..], seps[1..]);
      FeedArgThenRest(es[0], ts[0], seps[0], Glue(es[1..], seps[1..]), ts[1..]);
      assert [ts[0]] + ts[1..][..|ts| - 2] == ts[..|ts| - 1];
    }
  }

  /** One more argument and blank in front of text already read: its token
      is pushed before the text's tokens. */
  lemma {:induction false} FeedArgThenRest(e: string, t: string, sep: string, rest: string, more: seq<string>)
    requires Lexes(e, t) && IsBlank(sep) && more != []
    requires Feed(rest) == Scan(more[..|more| - 1], more[|more| - 1], Unquoted)
    ensures Feed(e + sep + rest) == Scan([t] + more[..|more| - 1], more[|more| - 1], Unquoted)
  {
    var x := e + sep;
    assert Feed(x) == Scan([t], [], Unquoted) by {
      FeedBlank(e, sep);
      assert Finish(Feed(e)) == [] + [t];
    }
    assert x[|x| - 1] != '\\' by {
      assert x[|x| - 1] == sep[|sep| - 1];
    }
    FeedAppend(x, rest);
  }

  /** Glued arguments start and end with non-whitespace. */
  lemma {:induction false} GlueTrimmed(es: seq<string>, seps: seq<string>)
    requires |es| >= 1 && |seps| == |es| - 1
    requires forall i :: 0 <= i < |es| ==> es[i] != [] && !IsSpace(es[i][0]) && !IsSpace(es[i][|es[i]| - 1])
    ensures Glue(es, seps) != [] && IsTrimmed(Glue(es, seps))
    ensures Glue(es, seps)[0] == es[0][0]
    decreases |es|
  {
    if |es| > 1 {
      GlueTrimmed(es[1..], seps[1..]);
      var g := Glue(es[1..], seps[1..]);
      assert Glue(es, seps)[|Glue(es, seps)| - 1] == g[|g| - 1];
    }
  }

  /** Round trip: arguments that each lex as one token, separated by any
      whitespace runs, tokenize back to those tokens. */
  lemma {:induction false} TokenizeGlue(es: seq<string>, ts: seq<string>, seps: seq<string>)
    requires |es| >= 1 && |ts| == |es| && |seps| == |es| - 1
    requires forall i :: 0 <= i < |es| ==> Lexes(es[i], ts[i])
    requires forall i :: 0 <= i < |seps| ==> IsBlank(seps[i])
    ensures Tokenize(Glue(es, seps)) == ts
  {
    GlueTrimmed(es, seps);
    TokenizeTrimmed(Glue(es, seps));
    LexemesOf(es, ts, seps);
    FeedGlue(es, ts, seps);
    assert ts[..|ts| - 1] + [ts[|ts| - 1]] == ts;
  }

  /** Text that follows complete arguments and a whitespace run is tokenized
      as if it stood alone. */
  lemma {:induction false} TokenizeAfterArgs(es: seq<string>, ts: seq<string>, seps: seq<string>, sep: string, tail: string)
    requires |es| >= 1 && |ts| == |es| && |seps| == |es| - 1
    requires forall i :: 0 <= i < |es| ==> Lexes(es[i], ts[i])
    requires forall i :: 0 <= i < |seps| ==> IsBlank(seps[i])
    requires IsBlank(sep) && tail != [] && IsTrimmed(tail)
    ensures Tokenize(Glue(es, seps) + sep + tail) == ts + Tokenize(tail)
  {
    FeedThroughArgs(es, ts, seps, sep);
    TokenizeAfterPrefix(Glue(es, seps) + sep, ts, tail);
  }

  /** Text read after a prefix that leaves no token pending and no quote
      open is tokenized on its own. */
  lemma {:induction false} TokenizeAfterPrefix(x: string, ts: seq<string>, tail: string)
    requires x != [] && !IsSpace(x[0]) && x[|x| - 1] != '\\'
    requires Feed(x) == Scan(ts, [], Unquoted)
    requires tail != [] && IsTrimmed(tail)
    ensures Tokenize(x + tail) == ts + Tokenize(tail)
  {
    FeedAppend(x, tail);
    var whole := x + tail;
    assert IsTrimmed(whole) by {
      assert whole[0] == x[0];
      assert whole[|whole| - 1] == tail[|tail| - 1];
    }
    var st := Feed(tail);
    assert Tokenize(whole) == Finish(Scan(ts + st.tokens, st.current, st.quote)) by {
      TokenizeTrimmed(whole);
    }
    assert Tokenize(tail) == Finish(st) by {
      TokenizeTrimmed(tail);
    }
    if st.current != [] {
      assert (ts + st.tokens) + [st.current] == ts + (st.tokens + [st.current]);
    }
  }

  /** Reading lexemes and the blank after them leaves their tokens finished
      and nothing pending. */
  lemma {:induction false} FeedThroughArgs(es: seq<string>, ts: seq<string>, seps: seq<string>, sep: string)
    requires |es| >= 1 && |ts| == |es| && |seps| == |es| - 1
    requires forall i :: 0 <= i < |es| ==> Lexes(es[i], ts[i])
    requires forall i :: 0 <= i < |seps| ==> IsBlank(seps[i])
    requires IsBlank(sep)
    ensures Feed(Glue(es, seps) + sep) == Scan(ts, [], Unquoted)
    ensures Glue(es, seps) + sep != [] && !IsSpace((Glue(es, seps) + sep)[0])
    ensures (Glue(es, seps) + sep)[|Glue(es, seps) + sep| - 1] != '\\'
  {
    var g := Glue(es, seps);
    assert g != [] && IsTrimmed(g) by {
      GlueTrimmed(es, seps);
    }
    var st := Feed(g);
    assert st == Scan(ts[..|ts| - 1], ts[|ts| - 1], Unquoted) by {
      LexemesOf(es, ts, seps);
      FeedGlue(es, ts, seps);
    }
    assert Feed(g + sep) == Scan(Finish(st), [], Unquoted) by {
      FeedBlank(g, sep);
    }
    assert Finish(st) == ts by {
      assert Lexes(es[|es| - 1], ts[|es| - 1]);
      assert ts[..|ts| - 1] + [ts[|ts| - 1]] == ts;
    }
    GlueEnds(g, sep);
  }

  /** The ends of a trimmed text followed by a blank. */
  lemma {:induction false} GlueEnds(g: string, sep: string)
    requires g != [] && IsTrimmed(g) && IsBlank(sep)
    ensures g + sep != [] && (g + sep)[0] == g[0] && !IsSpace((g + sep)[0])
    ensures (g + sep)[|g + sep| - 1] != '\\'
  {
    assert (g + sep)[|g + sep| - 1] == sep[|sep| - 1];
  }

  /** A word without whitespace whose quote marks are all escaped is one
      token, kept as written: the backslashes stay. */
  predicate IsBareWord(w: string) {
    w != []
    && (forall i :: 0 <= i < |w| ==> !IsSpace(w[i]))
    && (forall i :: 0 <= i < |w| && IsQuoteMark(w[i]) ==> i > 0 && w[i - 1] == '\\')
  }

  lemma {:induction false} BareWordLexes(w: string)
    requires IsBareWord(w)
    ensures Lexes(w, w)
  {
    FeedBare(w, |w|);
    assert w[..|w|] == w;
  }

  lemma {:induction false} FeedBare(w: string, k: nat)
    requires IsBareWord(w) && k <= |w|
    ensures Feed(w[..k]) == Scan([], w[..k], Unquoted)
  {
    if k > 0 {
      FeedBare(w, k - 1);
      FeedNext(w, k - 1);
      assert !IsSpace(w[k - 1]);
      assert IsQuoteMark(w[k - 1]) ==> k - 1 > 0 && w[k - 2] == '\\';
      assert w[..k] == w[..k - 1] + [w[k - 1]];
    }
  }

  /** The text of a quoted argument: it does not contain its own quote mark
      and does not end with a backslash (which would escape the closing
      mark). Whitespace and the other kind of quote mark are allowed. */
  predicate Quotable(q: char, w: string) {
    IsQuoteMark(q) && w != [] && q !in w && w[|w| - 1] != '\\'
  }

  /** A quoted argument is one token: its quote marks are dropped and
      everything between them is kept, whitespace included. */
  lemma {:induction false} QuotedLexes(q: char, w: string)
    requires Quotable(q, w)
    ensures Lexes([q] + w + [q], w)
  {
    var e := [q] + w + [q];
    FeedOpenQuote(q, w, |w|);
    assert ([q] + w)[..1 + |w|] == [q] + w;
    assert e[..|e| - 1] == [q] + w;
    assert e[|e| - 2] == w[|w| - 1];
  }

  lemma {:induction false} FeedOpenQuote(q: char, w: string, k: nat)
    requires IsQuoteMark(q) && q !in w && k <= |w|
    ensures Feed(([q] + w)[..1 + k]) == Scan([], w[..k], Quoted(q))
  {
    var s := [q] + w;
    if k == 0 {
      assert s[..1] == [q];
      assert Feed([q]) == Step(Feed([]), false, q);
    } else {
      FeedOpenQuote(q, w, k - 1);
      assert s[..1 + k][..k] == s[..k];
      assert s[..1 + k][k] == w[k - 1];
      assert w[..k] == w[..k - 1] + [w[k - 1]];
    }
  }

  /** An unterminated quote does not fail: the rest of the input is the last
      token. */
  lemma {:induction false} UnterminatedQuote(q: char, w: string)
    requires IsQuoteMark(q) && w != [] && q !in w && !IsSpace(w[|w| - 1])
    ensures Tokenize([q] + w) == [w]
  {
    TokenizeTrimmed([q] + w);
    FeedOpenQuote(q, w, |w|);
    assert ([q] + w)[..1 + |w|] == [q] + w;
    assert w[..|w|] == w;
  }

  /** A quoted phrase between two words: three tokens, the phrase without
      its quote marks. */
  lemma {:induction false} QuotedBetweenWords(a: string, q: char, w: string, b: string)
    requires IsBareWord(a) && Quotable(q, w) && IsBareWord(b)
    ensures Tokenize(a + " " + [q] + w + [q] + " " + b) == [a, w, b]
  {
    var es, seps := [a, [q] + w + [q], b], [" ", " "];
    assert Glue(es, seps) == a + " " + [q] + w + [q] + " " + b by {
      assert es[1..][1..] == [b] && seps[1..][1..] == [];
      assert Glue(es[1..], seps[1..]) == es[1] + " " + b;
      assert Glue(es, seps) == a + " " + ([q] + w + [q] + " " + b);
    }
    QuotedBetweenWordsGlued(a, q, w, b);
  }

  lemma {:induction false} QuotedBetweenWordsGlued(a: string, q: char, w: string, b: string)
    requires IsBareWord(a) && Quotable(q, w) && IsBareWord(b)
    ensures Tokenize(Glue([a, [q] + w + [q], b], [" ", " "])) == [a, w, b]
  {
    var es, ts, seps := [a, [q] + w + [q], b], [a, w, b], [" ", " "];
    BareWordLexes(a);
    QuotedLexes(q, w);
    BareWordLexes(b);
    forall i | 0 <= i < |es| ensures Lexes(es[i], ts[i]) {
      if i == 0 { assert es[i] == a && ts[i] == a; }
      else if i == 1 { assert es[i] == [q] + w + [q] && ts[i] == w; }
      else { assert es[i] == b && ts[i] == b; }
    }
    forall i | 0 <= i < |seps| ensures IsBlank(seps[i]) {
      assert seps[i] == " ";
    }
    TokenizeGlue(es, ts, seps);
  }

  /** Two words, where quote marks inside a word are escaped, are two tokens
      kept as written: `a\"b c` gives `a\"b` and `c`, backslash included. */
  lemma {:induction false} EscapedQuoteKept(a: string, b: string)
    requires IsBareWord(a) && IsBareWord(b)
    ensures Tokenize(a + " " + b) == [a, b]
  {
    assert Glue([a, b], [" "]) == a + " " + b;
    TwoWordsGlued(a, b);
  }

  lemma {:induction false} TwoWordsGlued(a: string, b: string)
    requires IsBareWord(a) && IsBareWord(b)
    ensures Tokenize(Glue([a, b], [" "])) == [a, b]
  {
    BareWordLexes(a);
    BareWordLexes(b);
    TokenizeGlue([a, b], [a, b], [" "]);
  }
}
