/**
 * The SQL script helpers of src/etl/load.py: `split_sql_statements`, a
 * character-level scanner that cuts a script at top-level semicolons, and
 * `clean_comments`, which drops whole-line `--` and `#` comments.
 */
module SqlScript {
  import opened Wrappers
  import opened Text

  // ---------------------------------------------------------------------
  // The scanner's specification
  // ---------------------------------------------------------------------

  /** Scanner state between two characters: the open quote character, if
      any, and whether the previous character was a pending backslash. */
  datatype Mode = Mode(quote: Option<char>, escape: bool)

  /** Outside any quote, no pending backslash: where a `;` ends a command. */
  const TopLevel := Mode(None, false)

  predicate IsQuoteChar(c: char) {
    c == '\'' || c == '"'
  }

  /** One step of the scanner on character `c`. A pending backslash makes
      `c` literal; a backslash starts an escape (inside quotes too); inside
      a quote only the opening character closes it; outside, a quote
      character opens a quote. */
  function Step(m: Mode, c: char): Mode {
    if m.escape then Mode(m.quote, false)
    else if c == '\\' then Mode(m.quote, true)
    else if m.quote.Some? then (if c == m.quote.value then TopLevel else m)
    else if IsQuoteChar(c) then Mode(Some(c), false)
    else m
  }

  /** The scanner state after reading all of `t`. */
  function ModeAfter(t: string): Mode {
    if t == [] then TopLevel else Step(ModeAfter(t[..|t| - 1]), t[|t| - 1])
  }

  /** The character at index `i` of `t` is a semicolon that ends a command. */
  predicate EndsCommand(t: string, i: int) {
    0 <= i < |t| && t[i] == ';' && ModeAfter(t[..i]) == TopLevel
  }

  /** The raw text between command-ending semicolons, before stripping:
      `t` cut at every index where `EndsCommand` holds. */
  function Pieces(t: string): (ps: seq<string>)
    ensures |ps| >= 1
  {
    if t == [] then [[]]
    else
      var ps := Pieces(t[..|t| - 1]);
      if EndsCommand(t, |t| - 1) then ps + [[]]
      else ps[..|ps| - 1] + [ps[|ps| - 1] + [t[|t| - 1]]]
  }

  /** The commands kept from a list of pieces: each piece stripped, the
      empty ones dropped. */
  function Kept(ps: seq<string>): (cs: seq<string>)
    ensures |cs| <= |ps|
  {
    if ps == [] then []
    else
      var cmd := Strip(ps[|ps| - 1]);
      Kept(ps[..|ps| - 1]) + (if cmd == [] then [] else [cmd])
  }

  /** What `split_sql_statements` returns for `text`. */
  function Commands(text: string): seq<string> {
    Kept(Pieces(text))
  }

  /** `sep.join(ps)` for a one-character separator. */
  function Join(ps: seq<string>, sep: char): string {
    if ps == [] then []
    else if |ps| == 1 then ps[0]
    else Join(ps[..|ps| - 1], sep) + [sep] + ps[|ps| - 1]
  }

  // ---------------------------------------------------------------------
  // split_sql_statements
  // ---------------------------------------------------------------------

  /** `split_sql_statements`: walks the text once, keeping the open quote
      and the pending escape, and closes a command at each top-level `;`. */
  method SplitSqlStatements(text: string) returns (commands: seq<string>)
    ensures commands == Commands(text)
  {
    commands := [];
    var current: string := [];
    var inQuote: Option<char> := None;
    var escape := false;
    ghost var done: seq<string> := [];
    for i := 0 to |text|
      invariant ModeAfter(text[..i]) == Mode(inQuote, escape)
      invariant Pieces(text[..i]) == done + [current]
      invariant commands == Kept(done)
    {
      var c := text[i];
      ScanStep(text, i, done, current);
      if escape {
        current := current + [c];
        escape := false;
      } else if c == '\\' {
        escape := true;
        current := current + [c];
      } else if inQuote.Some? {
        current := current + [c];
        if c == inQuote.value {
          inQuote := None;
        }
      } else if c == '\'' || c == '"' {
        inQuote := Some(c);
        current := current + [c];
      } else if c == ';' {
        commands := Flush(commands, current, done);
        done := done + [current];
        current := [];
      } else {
        current := current + [c];
      }
    }
    assert text[..|text|] == text;
    commands := Flush(commands, current, done);
  }

  /** Closes a piece: its stripped text becomes a command unless empty. */
  method Flush(commands: seq<string>, current: string, ghost done: seq<string>) returns (commands': seq<string>)
    requires commands == Kept(done)
    ensures commands' == Kept(done + [current])
  {
    commands' := commands;
    var cmd := Strip(current);
    if cmd != [] {
      commands' := commands' + [cmd];
    }
    KeptSnoc(done, current);
  }

  /** Every command is non-empty and carries no surrounding whitespace. */
  lemma {:induction false} KeptStripped(ps: seq<string>)
    ensures forall k :: 0 <= k < |Kept(ps)| ==> Kept(ps)[k] != [] && IsStripped(Kept(ps)[k])
  {
    if ps != [] {
      var init := ps[..|ps| - 1];
      KeptStripped(init);
      StripSpec(ps[|ps| - 1]);
      KeptSnoc(init, ps[|ps| - 1]);
      assert init + [ps[|ps| - 1]] == ps;
    }
  }

  /** Closing a piece adds its stripped text to the commands, unless empty. */
  lemma KeptSnoc(done: seq<string>, current: string)
    ensures Kept(done + [current]) == Kept(done) + (if Strip(current) == [] then [] else [Strip(current)])
  {
    assert (done + [current])[..|done|] == done;
  }

  /** One character of the scan: the mode advances by `Step`, and the
      pieces either gain a new empty piece (a top-level `;`) or the
      character joins the last piece. */
  lemma ScanStep(t: string, i: nat, done: seq<string>, current: string)
    requires i < |t| && Pieces(t[..i]) == done + [current]
    ensures ModeAfter(t[..i + 1]) == Step(ModeAfter(t[..i]), t[i])
    ensures Pieces(t[..i + 1]) ==
              if t[i] == ';' && ModeAfter(t[..i]) == TopLevel then done + [current] + [[]]
              else done + [current + [t[i]]]
  {
    assert t[..i + 1][..i] == t[..i];
    assert (done + [current])[..|done|] == done;
  }

  // ---------------------------------------------------------------------
  // Properties of the scanner
  // ---------------------------------------------------------------------

  /** Only the prefix up to `i` decides whether index `i` ends a command. */
  lemma EndsCommandPrefix(t: string, n: nat, i: int)
    requires 0 <= i < n <= |t|
    ensures EndsCommand(t[..n], i) == EndsCommand(t, i)
  {
    assert t[..n][..i] == t[..i];
  }

  /** A character that does not end a command joins the last piece. */
  lemma PiecesSnoc(t: string, c: char)
    requires !EndsCommand(t + [c], |t|)
    ensures var ps := Pieces(t);
            Pieces(t + [c]) == ps[..|ps| - 1] + [ps[|ps| - 1] + [c]]
  {
    assert (t + [c])[..|t|] == t;
  }

  /** A stretch without command-ending semicolons has none in its prefixes either. */
  lemma NoEndsInPrefix(t: string, s': string, c: char)
    requires forall i :: |t| <= i < |t + s' + [c]| ==> !EndsCommand(t + s' + [c], i)
    ensures forall i :: |t| <= i < |t + s'| ==> !EndsCommand(t + s', i)
  {
    assert (t + s' + [c])[..|t| + |s'|] == t + s';
    forall i | |t| <= i < |t + s'| ensures !EndsCommand(t + s', i) {
      EndsCommandPrefix(t + s' + [c], |t| + |s'|, i);
    }
  }

  /** Text containing no command-ending semicolon only lengthens the last piece. */
  lemma {:induction false} PiecesExtend(t: string, s: string)
    requires forall i :: |t| <= i < |t + s| ==> !EndsCommand(t + s, i)
    ensures var ps := Pieces(t);
            Pieces(t + s) == ps[..|ps| - 1] + [ps[|ps| - 1] + s]
  {
    var ps := Pieces(t);
    if s == [] {
      assert t + s == t;
      assert ps[|ps| - 1] + s == ps[|ps| - 1];
      assert ps[..|ps| - 1] + [ps[|ps| - 1]] == ps;
    } else {
      var s' := s[..|s| - 1];
      var c := s[|s| - 1];
      var front, last := ps[..|ps| - 1], ps[|ps| - 1];
      assert s == s' + [c];
      assert t + s == t + s' + [c];
      NoEndsInPrefix(t, s', c);
      PiecesExtend(t, s');
      var qs := Pieces(t + s');
      assert qs == front + [last + s'];
      assert qs[..|qs| - 1] == front;
      PiecesSnoc(t + s', c);
      assert last + s' + [c] == last + s;
    }
  }

  /** Every character of the input is in some piece, in order, except the
      command-ending semicolons: joining the pieces with `;` gives back
      the input. */
  lemma {:induction false} JoinPieces(t: string)
    ensures Join(Pieces(t), ';') == t
  {
    if t != [] {
      var init := t[..|t| - 1];
      var c := t[|t| - 1];
      JoinPieces(init);
      var ps := Pieces(init);
      assert t == init + [c];
      if EndsCommand(t, |t| - 1) {
        assert (ps + [[]])[..|ps|] == ps;
      } else {
        var n := |ps|;
        var ps' := ps[..n - 1] + [ps[n - 1] + [c]];
        assert ps'[..n - 1] == ps[..n - 1];
        if n > 1 {
          assert ps[..n - 1] == ps[..n][..n - 1];
          assert Join(ps, ';') == Join(ps[..n - 1], ';') + [';'] + ps[n - 1];
        }
      }
    }
  }

  /** The indices of the command-ending semicolons of `t`. */
  function Terminators(t: string): set<nat> {
    set i: nat | i < |t| && EndsCommand(t, i)
  }

  /** The terminators of `t` are those of `t` without its last character,
      plus the last index when that ends a command. */
  lemma TerminatorsSnoc(t: string)
    requires t != []
    ensures Terminators(t) == Terminators(t[..|t| - 1]) + (if EndsCommand(t, |t| - 1) then {|t| - 1} else {})
  {
    var init := t[..|t| - 1];
    forall i: nat | i < |init| ensures EndsCommand(init, i) == EndsCommand(t, i) {
      EndsCommandPrefix(t, |init|, i);
    }
  }

  /** There is one piece more than there are command-ending semicolons. */
  lemma {:induction false} PiecesCount(t: string)
    ensures |Pieces(t)| == |Terminators(t)| + 1
  {
    if t == [] {
      assert Terminators(t) == {};
    } else {
      PiecesCount(t[..|t| - 1]);
      TerminatorsSnoc(t);
    }
  }

  /** Input with no top-level semicolon is one piece, so it yields at most
      one command: the stripped input, unless that is empty. */
  lemma NoTopLevelSemicolon(text: string)
    requires forall i :: 0 <= i < |text| ==> !EndsCommand(text, i)
    ensures Pieces(text) == [text]
    ensures Commands(text) == if Strip(text) == [] then [] else [Strip(text)]
  {
    var empty: string := [];
    assert empty + text == text;
    PiecesExtend(empty, text);
    var ps := Pieces(empty);
    assert ps == [[]];
    assert ps[..0] + [ps[0] + text] == [text];
    assert Kept([text]) == Kept([]) + (if Strip(text) == [] then [] else [Strip(text)]);
  }

  /** The quote state only ever holds a quote character. */
  lemma {:induction false} QuoteIsQuoteChar(t: string)
    ensures ModeAfter(t).quote.Some? ==> IsQuoteChar(ModeAfter(t).quote.value)
  {
    if t != [] {
      QuoteIsQuoteChar(t[..|t| - 1]);
    }
  }

  /** A quoted region: after an opening quote `q` read at top level, text
      holding neither `q` nor a backslash stays inside the quote (so neither
      a `;` nor the other quote character in it is special), none of it
      ends a command, it all goes into the current piece, and the next `q`
      closes the quote. */
  lemma {:induction false} QuotedRegion(pre: string, q: char, body: string)
    requires IsQuoteChar(q) && ModeAfter(pre) == TopLevel
    requires forall k :: 0 <= k < |body| ==> body[k] != q && body[k] != '\\'
    ensures ModeAfter(pre + [q] + body) == Mode(Some(q), false)
    ensures forall i :: |pre| < i < |pre| + 1 + |body| ==> !EndsCommand(pre + [q] + body, i)
    ensures var ps := Pieces(pre);
            Pieces(pre + [q] + body) == ps[..|ps| - 1] + [ps[|ps| - 1] + [q] + body]
    ensures ModeAfter(pre + [q] + body + [q]) == TopLevel
  {
    ModeInQuote(pre, q, body);
    var t := pre + [q] + body;
    forall i | |pre| < i < |t| ensures !EndsCommand(t, i) {
      assert t[..i] == pre + [q] + body[..i - |pre| - 1];
    }
    assert body[..|body|] == body;
    assert pre + ([q] + body) == t;
    forall i | |pre| <= i < |pre + ([q] + body)| ensures !EndsCommand(pre + ([q] + body), i) {
      if i == |pre| { assert t[|pre|] == q; }
    }
    PiecesExtend(pre, [q] + body);
    assert pre + ([q] + body) == t;
    var ps := Pieces(pre);
    assert ps[|ps| - 1] + ([q] + body) == ps[|ps| - 1] + [q] + body;
    assert (t + [q])[..|t|] == t;
  }

  /** Inside a quoted region every prefix leaves the scanner in the quote. */
  lemma {:induction false} ModeInQuote(pre: string, q: char, body: string)
    requires IsQuoteChar(q) && ModeAfter(pre) == TopLevel
    requires forall k :: 0 <= k < |body| ==> body[k] != q && body[k] != '\\'
    ensures forall j :: 0 <= j <= |body| ==> ModeAfter(pre + [q] + body[..j]) == Mode(Some(q), false)
  {
    if body == [] {
      assert pre + [q] + body[..0] == pre + [q];
      assert (pre + [q])[..|pre|] == pre;
    } else {
      var b' := body[..|body| - 1];
      ModeInQuote(pre, q, b');
      forall j | 0 <= j <= |body| ensures ModeAfter(pre + [q] + body[..j]) == Mode(Some(q), false) {
        if j < |body| {
          assert body[..j] == b'[..j];
        } else {
          var t := pre + [q] + body;
          assert body[..j] == body;
          assert t[..|t| - 1] == pre + [q] + b'[..|b'|];
          assert b'[..|b'|] == b';
        }
      }
    }
  }

  /** A backslash read outside an escape and the character after it are
      both kept in the current piece; the pair neither splits nor changes
      the quote state, whatever that character is (a quote or `;` too). */
  lemma EscapedPair(t: string, c: char)
    requires !ModeAfter(t).escape
    ensures ModeAfter(t + ['\\', c]) == ModeAfter(t)
    ensures !EndsCommand(t + ['\\', c], |t|) && !EndsCommand(t + ['\\', c], |t| + 1)
    ensures var ps := Pieces(t);
            Pieces(t + ['\\', c]) == ps[..|ps| - 1] + [ps[|ps| - 1] + ['\\', c]]
  {
    var u := t + ['\\', c];
    assert u[..|t|] == t;
    assert u[..|t| + 1] == t + ['\\'];
    assert (t + ['\\'])[..|t|] == t;
    forall i | |t| <= i < |u| ensures !EndsCommand(u, i) {}
    PiecesExtend(t, ['\\', c]);
  }

  // ---------------------------------------------------------------------
  // clean_comments
  // ---------------------------------------------------------------------

  /** A line `clean_comments` keeps: its stripped form is non-empty and
      starts with neither `--` nor `#`. */
  predicate IsCodeLine(line: string) {
    var s := Strip(line);
    s != [] && !StartsWith(s, "--") && !StartsWith(s, "#")
  }

  /** The lines of `ls` that are code lines, unchanged and in order. */
  function CodeLines(ls: seq<string>): seq<string> {
    if ls == [] then []
    else
      var last := ls[|ls| - 1];
      CodeLines(ls[..|ls| - 1]) + (if IsCodeLine(last) then [last] else [])
  }

  /** What `clean_comments` returns for `content`. */
  function Cleaned(content: string): string {
    JoinLines(CodeLines(SplitLines(content)))
  }

  /** `clean_comments`: splits on newlines, keeps the code lines as they
      are (indentation included) and joins them with newlines. */
  method CleanComments(content: string) returns (result: string)
    ensures result == Cleaned(content)
  {
    var lines := SplitLines(content);
    var cleanedLines: seq<string> := [];
    for i := 0 to |lines|
      invariant cleanedLines == CodeLines(lines[..i])
    {
      assert lines[..i + 1][..i] == lines[..i];
      var line := lines[i];
      var stripped := Strip(line);
      assert CodeLines(lines[..i + 1]) == CodeLines(lines[..i]) + (if IsCodeLine(line) then [line] else []);
      if stripped == [] || StartsWith(stripped, "--") || StartsWith(stripped, "#") {
        continue;
      }
      cleanedLines := cleanedLines + [line];
    }
    assert lines[..|lines|] == lines;
    result := JoinLines(cleanedLines);
  }

  /** Filtering commutes with concatenation, so it keeps lines in order. */
  lemma {:induction false} CodeLinesAppend(a: seq<string>, b: seq<string>)
    ensures CodeLines(a + b) == CodeLines(a) + CodeLines(b)
  {
    if b == [] {
      assert a + b == a;
    } else {
      var b' := b[..|b| - 1];
      var last := b[|b| - 1];
      CodeLinesAppend(a, b');
      var tail := if IsCodeLine(last) then [last] else [];
      assert (a + b)[..|a + b| - 1] == a + b';
      assert (a + b)[|a + b| - 1] == last;
      assert CodeLines(a + b) == CodeLines(a + b') + tail;
      assert CodeLines(b) == CodeLines(b') + tail;
    }
  }

  /** A line is kept exactly when it is a code line of the input. */
  lemma {:induction false} CodeLinesMembers(ls: seq<string>)
    ensures forall x :: x in CodeLines(ls) <==> x in ls && IsCodeLine(x)
  {
    if ls != [] {
      var init := ls[..|ls| - 1];
      CodeLinesMembers(init);
      assert ls == init + [ls[|ls| - 1]];
    }
  }

  /** Lines that are all code lines are kept unchanged. */
  lemma {:induction false} CodeLinesAllCode(ls: seq<string>)
    requires forall k :: 0 <= k < |ls| ==> IsCodeLine(ls[k])
    ensures CodeLines(ls) == ls
  {
    if ls != [] {
      var init := ls[..|ls| - 1];
      var last := ls[|ls| - 1];
      forall k | 0 <= k < |init| ensures IsCodeLine(init[k]) {
        assert init[k] == ls[k];
      }
      CodeLinesAllCode(init);
      assert IsCodeLine(last);
      assert CodeLines(ls) == CodeLines(init) + [last];
      assert init + [last] == ls;
    }
  }

  /** The lines of the cleaned text are exactly the input's code lines
      (when there are none, the result is the empty string). */
  lemma CleanedLines(content: string)
    ensures var kept := CodeLines(SplitLines(content));
            (kept == [] ==> Cleaned(content) == []) &&
            (kept != [] ==> SplitLines(Cleaned(content)) == kept)
  {
    var ls := SplitLines(content);
    var kept := CodeLines(ls);
    CodeLinesMembers(ls);
    if kept != [] {
      forall k | 0 <= k < |kept| ensures '\n' !in kept[k] {
        assert kept[k] in ls;
      }
      SplitJoinLines(kept);
    }
  }

  /** `clean_comments` is idempotent. */
  lemma CleanCommentsIdempotent(content: string)
    ensures Cleaned(Cleaned(content)) == Cleaned(content)
  {
    var kept := CodeLines(SplitLines(content));
    CleanedLines(content);
    if kept == [] {
      assert SplitLines([]) == [[]];
      assert !IsCodeLine([]);
      assert CodeLines([[]]) == CodeLines([]) + [];
    } else {
      CodeLinesMembers(SplitLines(content));
      forall k | 0 <= k < |kept| ensures IsCodeLine(kept[k]) {
        assert kept[k] in kept;
      }
      CodeLinesAllCode(kept);
    }
  }
}
