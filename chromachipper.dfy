/** Colour harvesting: finds CSS-style hex colours (`#rgb`, `#rrggbb`, or the
    same digits after `0x`) in a message and returns them normalised to
    `#rrggbb`, one group per line of the message that holds any. */
module Chromachipper {
  import opened Strings

  /** A character of the class `[0-9A-F]` under case-insensitive matching. */
  predicate IsHexDigit(c: char) {
    '0' <= c <= '9' || 'a' <= c <= 'f' || 'A' <= c <= 'F'
  }

  predicate IsLowerHexDigit(c: char) {
    '0' <= c <= '9' || 'a' <= c <= 'f'
  }

  /** A word character for the regular expression `\b`: `[A-Za-z0-9_]`. */
  predicate IsWordChar(c: char) {
    'a' <= c <= 'z' || 'A' <= c <= 'Z' || '0' <= c <= '9' || c == '_'
  }

  /** A matched token: `#` and then three or six hex digits, in either case. */
  predicate IsHexToken(t: string) {
    (|t| == 4 || |t| == 7) && t[0] == '#' && forall i :: 1 <= i < |t| ==> IsHexDigit(t[i])
  }

  /** A normalised colour: `#` and six lower-case hex digits. */
  predicate IsColour(c: string) {
    |c| == 7 && c[0] == '#' && forall i :: 1 <= i < 7 ==> IsLowerHexDigit(c[i])
  }

  /** `#` at `i` followed by at least `digits` hex digits. */
  predicate HexRun(line: string, i: nat, digits: nat) {
    i + 1 + digits <= |line| && line[i] == '#' &&
    forall j :: i < j <= i + digits ==> IsHexDigit(line[j])
  }

  /** The length of the match of `#[0-9A-F]{6}|#[0-9A-F]{3}\b` (case-insensitive)
      that starts at `i`, or 0 when neither alternative matches there. The six-digit
      alternative is tried first; the three-digit one needs a word boundary after it. */
  function MatchLen(line: string, i: nat): (n: nat)
    requires i <= |line|
    ensures n == 0 || n == 4 || n == 7
    ensures i + n <= |line|
    ensures n > 0 ==> line[i] == '#'
  {
    if HexRun(line, i, 6) then 7
    else if HexRun(line, i, 3) && (i + 4 == |line| || !IsWordChar(line[i + 4])) then 4
    else 0
  }

  /** The start positions, from `i` on, of the matches `findall` reports: a match is
      taken wherever one starts, scanning resumes just after it, and after a failed
      attempt scanning moves on by one character. */
  function MatchStarts(line: string, i: nat): (ps: seq<nat>)
    requires i <= |line|
    ensures forall k :: 0 <= k < |ps| ==> i <= ps[k] < |line| && MatchLen(line, ps[k]) > 0
    ensures forall k :: 0 <= k < |ps| - 1 ==> ps[k] + MatchLen(line, ps[k]) <= ps[k + 1]
    decreases |line| - i
  {
    if i == |line| then []
    else
      var n := MatchLen(line, i);
      if n > 0 then [i] + MatchStarts(line, i + n)
      else MatchStarts(line, i + 1)
  }

  /** The matched text, in left-to-right order (`reg.findall(line)`). */
  function FindAll(line: string): (ms: seq<string>)
    ensures forall k :: 0 <= k < |ms| ==> IsHexToken(ms[k])
  {
    var ps := MatchStarts(line, 0);
    seq(|ps|, k requires 0 <= k < |ps| => line[ps[k]..ps[k] + MatchLen(line, ps[k])])
  }

  /** Position `q` is reported in `ps`, or lies strictly inside a reported match. */
  predicate Covered(line: string, ps: seq<nat>, q: nat)
    requires forall k :: 0 <= k < |ps| ==> ps[k] <= |line|
  {
    q in ps || exists k :: 0 <= k < |ps| && ps[k] < q < ps[k] + MatchLen(line, ps[k])
  }

  lemma CoveredCons(line: string, p: nat, rest: seq<nat>, q: nat)
    requires p <= |line| && forall k :: 0 <= k < |rest| ==> rest[k] <= |line|
    requires Covered(line, rest, q)
    ensures Covered(line, [p] + rest, q)
  {
    var ps := [p] + rest;
    if q !in rest {
      var k :| 0 <= k < |rest| && rest[k] < q < rest[k] + MatchLen(line, rest[k]);
      assert ps[k + 1] == rest[k];
    }
  }

  /** The scan is leftmost and misses nothing: every position where the pattern
      matches is either reported or lies strictly inside an earlier reported match. */
  lemma {:induction false} MatchStartsComplete(line: string, i: nat, q: nat)
    requires i <= q < |line| && MatchLen(line, q) > 0
    ensures Covered(line, MatchStarts(line, i), q)
    decreases |line| - i
  {
    var ps := MatchStarts(line, i);
    var n := MatchLen(line, i);
    if i == q {
      assert ps[0] == q;
    } else if n == 0 {
      MatchStartsComplete(line, i + 1, q);
    } else if q < i + n {
      assert ps[0] == i;
    } else {
      MatchStartsComplete(line, i + n, q);
      CoveredCons(line, i, MatchStarts(line, i + n), q);
    }
  }

  /** The value of one hex digit. */
  function DigitValue(c: char): (v: nat)
    requires IsHexDigit(c)
    ensures v < 16
  {
    if '0' <= c <= '9' then c as int - '0' as int
    else if 'a' <= c <= 'f' then c as int - 'a' as int + 10
    else c as int - 'A' as int + 10
  }

  datatype Rgb = Rgb(red: nat, green: nat, blue: nat)

  /** The colour a token denotes, as section 4.2.1 of CSS Color Module Level 3 reads
      the notation: `#rrggbb` gives each channel as two hex digits, and `#rgb`
      replicates each digit, so a channel is 17 times its digit. */
  function TokenRgb(t: string): Rgb
    requires IsHexToken(t)
  {
    if |t| == 7 then
      Rgb(16 * DigitValue(t[1]) + DigitValue(t[2]),
          16 * DigitValue(t[3]) + DigitValue(t[4]),
          16 * DigitValue(t[5]) + DigitValue(t[6]))
    else
      Rgb(17 * DigitValue(t[1]), 17 * DigitValue(t[2]), 17 * DigitValue(t[3]))
  }

  lemma LowerDigit(c: char)
    requires IsHexDigit(c)
    ensures IsLowerHexDigit(Lower(c)) && DigitValue(Lower(c)) == DigitValue(c)
  {
  }

  /** `normalize_hex`: lower-case the digits and expand `#rgb` to `#rrggbb`. The
      result is a normalised colour that denotes the same RGB triple as the token;
      a three-digit token comes out with each digit doubled. */
  function NormalizeHex(t: string): (c: string)
    requires IsHexToken(t)
    ensures IsColour(c) && IsHexToken(c)
    ensures TokenRgb(c) == TokenRgb(t)
    ensures |t| == 4 ==> c[1] == c[2] && c[3] == c[4] && c[5] == c[6]
  {
    LowerDigit(t[1]); LowerDigit(t[2]); LowerDigit(t[3]);
    if |t| == 4 then
      ['#', Lower(t[1]), Lower(t[1]), Lower(t[2]), Lower(t[2]), Lower(t[3]), Lower(t[3])]
    else
      LowerDigit(t[4]); LowerDigit(t[5]); LowerDigit(t[6]);
      ['#', Lower(t[1]), Lower(t[2]), Lower(t[3]), Lower(t[4]), Lower(t[5]), Lower(t[6])]
  }

  lemma DigitInjective(a: char, b: char)
    requires IsLowerHexDigit(a) && IsLowerHexDigit(b) && DigitValue(a) == DigitValue(b)
    ensures a == b
  {
  }

  lemma ChannelInjective(a1: nat, a2: nat, b1: nat, b2: nat)
    requires a1 < 16 && a2 < 16 && b1 < 16 && b2 < 16
    requires 16 * a1 + a2 == 16 * b1 + b2
    ensures a1 == b1 && a2 == b2
  {
  }

  /** Two normalised colours that denote the same RGB triple are the same text, so
      the normal form of a colour is unique. */
  lemma ColourUnique(a: string, b: string)
    requires IsColour(a) && IsColour(b) && TokenRgb(a) == TokenRgb(b)
    ensures a == b
  {
    forall i | 1 <= i < 7 ensures IsHexDigit(a[i]) && IsHexDigit(b[i]) { }
    ChannelInjective(DigitValue(a[1]), DigitValue(a[2]), DigitValue(b[1]), DigitValue(b[2]));
    ChannelInjective(DigitValue(a[3]), DigitValue(a[4]), DigitValue(b[3]), DigitValue(b[4]));
    ChannelInjective(DigitValue(a[5]), DigitValue(a[6]), DigitValue(b[5]), DigitValue(b[6]));
    forall i | 1 <= i < 7 ensures a[i] == b[i] {
      DigitInjective(a[i], b[i]);
    }
  }

  /** Normalising a normalised colour changes nothing. */
  lemma NormalizeIdempotent(t: string)
    requires IsHexToken(t)
    ensures NormalizeHex(NormalizeHex(t)) == NormalizeHex(t)
  {
    var c := NormalizeHex(t);
    ColourUnique(NormalizeHex(c), c);
  }

  /** `[normalize_hex(colour) for colour in colours]`. */
  function NormalizeEach(tokens: seq<string>): (cs: seq<string>)
    requires forall k :: 0 <= k < |tokens| ==> IsHexToken(tokens[k])
    ensures |cs| == |tokens|
    ensures forall k :: 0 <= k < |cs| ==> IsColour(cs[k]) && TokenRgb(cs[k]) == TokenRgb(tokens[k])
  {
    seq(|tokens|, k requires 0 <= k < |tokens| => NormalizeHex(tokens[k]))
  }

  /** The normalised colours found on one line, in match order. */
  function LineColours(line: string): (cs: seq<string>)
    ensures |cs| == |FindAll(line)|
    ensures forall k :: 0 <= k < |cs| ==> IsColour(cs[k]) && TokenRgb(cs[k]) == TokenRgb(FindAll(line)[k])
  {
    NormalizeEach(FindAll(line))
  }

  /** The groups that the loop over `lines` builds: one group per line whose scan
      found anything, in line order. */
  function HarvestLines(lines: seq<string>): (groups: seq<seq<string>>)
    ensures |groups| <= |lines|
    decreases |lines|
  {
    if lines == [] then []
    else
      var last := lines[|lines| - 1];
      HarvestLines(lines[..|lines| - 1]) + (if FindAll(last) != [] then [LineColours(last)] else [])
  }

  /** There are at most as many groups as lines, no group is empty, and every entry
      is a normalised colour. */
  lemma {:induction false} HarvestLinesShape(lines: seq<string>)
    ensures var groups := HarvestLines(lines);
      |groups| <= |lines| &&
      forall g :: g in groups ==> |g| > 0 && forall c :: c in g ==> IsColour(c)
    decreases |lines|
  {
    if lines != [] {
      HarvestLinesShape(lines[..|lines| - 1]);
    }
  }

  lemma HarvestLinesStep(lines: seq<string>, i: nat)
    requires i < |lines|
    ensures HarvestLines(lines[..i + 1]) == HarvestLines(lines[..i]) +
      (if FindAll(lines[i]) != [] then [LineColours(lines[i])] else [])
  {
    assert lines[..i + 1][..i] == lines[..i];
  }

  /** The text after the `0x` notation has been rewritten to `#`: no `0x` is left,
      and a text without `0x` is left as it is. */
  function Rewrite(message: string): (text: string)
    ensures !Occurs(text, "0x")
    ensures !Occurs(message, "0x") ==> text == message
  {
    RewriteRemovesPrefix(message);
    var text := Replace(message, "0x", "#");
    assert !Occurs(message, "0x") ==> text == message by {
      if !Occurs(message, "0x") {
        ReplaceAbsent(message, "0x", "#");
      }
    }
    text
  }

  /** The lines the message is scanned in: at least one, none holding a line
      break, and joined with `\n` they give the rewritten text back. */
  function Lines(message: string): (lines: seq<string>)
    ensures |lines| >= 1
    ensures forall k :: 0 <= k < |lines| ==> '\n' !in lines[k]
    ensures Join(lines, "\n") == Rewrite(message)
  {
    SplitJoin(Rewrite(message), '\n');
    Split(Rewrite(message), '\n')
  }

  /** What `get_colours_from_message` returns for `message`: at most one group
      per line. */
  function Harvest(message: string): (groups: seq<seq<string>>)
    ensures |groups| <= |Lines(message)|
  {
    HarvestLines(Lines(message))
  }

  /** `get_colours_from_message`: rewrite `0x` to `#`, split on `\n`, and append the
      normalised matches of each line that has any. */
  method GetColoursFromMessage(message: string) returns (normalizedColours: seq<seq<string>>)
    ensures normalizedColours == Harvest(message)
    ensures |normalizedColours| <= |Lines(message)|
    ensures forall g :: g in normalizedColours ==> |g| > 0 && forall c :: c in g ==> IsColour(c)
  {
    var text := Replace(message, "0x", "#");
    var lines := Split(text, '\n');
    normalizedColours := [];
    for i := 0 to |lines|
      invariant normalizedColours == HarvestLines(lines[..i])
    {
      var colours := FindAll(lines[i]);
      HarvestLinesStep(lines, i);
      if colours != [] {
        normalizedColours := normalizedColours + [NormalizeEach(colours)];
      }
    }
    assert lines[..|lines|] == lines;
    HarvestLinesShape(lines);
  }

  // ----- properties of the harvest -----

  /** Replacing every `0x` by `#` leaves no `0x`. */
  lemma {:induction false} RewriteRemovesPrefix(s: string)
    ensures !Occurs(Replace(s, "0x", "#"), "0x")
    decreases |s|
  {
    var r := Replace(s, "0x", "#");
    if s == [] {
      assert forall i :: 0 <= i <= |r| ==> r[i..] == [];
    } else if "0x" <= s {
      var rest := Replace(s[2..], "0x", "#");
      RewriteRemovesPrefix(s[2..]);
      assert r == "#" + rest;
      forall i | 0 <= i <= |r| ensures !("0x" <= r[i..]) {
        if i > 0 { assert r[i..] == rest[i - 1..]; } else { assert r[0] == '#'; }
      }
    } else {
      var rest := Replace(s[1..], "0x", "#");
      RewriteRemovesPrefix(s[1..]);
      assert r == [s[0]] + rest;
      forall i | 0 <= i <= |r| ensures !("0x" <= r[i..]) {
        if i > 0 {
          assert r[i..] == rest[i - 1..];
        }
      }
    }
  }

  /** The `0x` notation is equivalent to `#`: harvesting the rewritten text gives the
      same result as harvesting the original. */
  lemma NotationEquivalent(s: string)
    ensures Harvest(Rewrite(s)) == Harvest(s)
  {
    RewriteRemovesPrefix(s);
    ReplaceAbsent(Rewrite(s), "0x", "#");
  }

  /** No match starts in a stretch of the line without `#`. */
  lemma {:induction false} NoMarkerNoMatch(line: string, i: nat)
    requires i <= |line| && forall j :: i <= j < |line| ==> line[j] != '#'
    ensures MatchStarts(line, i) == []
    decreases |line| - i
  {
    if i < |line| {
      NoMarkerNoMatch(line, i + 1);
    }
  }

  lemma {:induction false} NoMarkerLines(lines: seq<string>)
    requires forall k :: 0 <= k < |lines| ==> '#' !in lines[k]
    ensures HarvestLines(lines) == []
    decreases |lines|
  {
    if lines != [] {
      NoMarkerNoMatch(lines[|lines| - 1], 0);
      NoMarkerLines(lines[..|lines| - 1]);
    }
  }

  /** Text holding neither `#` nor `0x` yields no colours. */
  lemma NoMarkerNoColours(s: string)
    requires '#' !in s && !Occurs(s, "0x")
    ensures Harvest(s) == []
  {
    ReplaceAbsent(s, "0x", "#");
    NoMarkerLines(Lines(s));
  }

  /** Every colour on every line, in line order and then match order. */
  function AllColours(lines: seq<string>): seq<string>
    decreases |lines|
  {
    if lines == [] then [] else AllColours(lines[..|lines| - 1]) + LineColours(lines[|lines| - 1])
  }

  /** The groups laid end to end. */
  function Concat(groups: seq<seq<string>>): seq<string>
    decreases |groups|
  {
    if groups == [] then [] else Concat(groups[..|groups| - 1]) + groups[|groups| - 1]
  }

  /** Dropping the lines without matches loses no colour and keeps the order: the
      groups laid end to end are all colours of all lines, line by line, left to right. */
  lemma {:induction false} HarvestKeepsOrder(lines: seq<string>)
    ensures Concat(HarvestLines(lines)) == AllColours(lines)
    decreases |lines|
  {
    if lines != [] {
      var init := lines[..|lines| - 1];
      var last := lines[|lines| - 1];
      HarvestKeepsOrder(init);
      var h := HarvestLines(init);
      if FindAll(last) != [] {
        assert (h + [LineColours(last)])[..|h|] == h;
      } else {
        assert h + [] == h;
        assert LineColours(last) == [];
      }
    }
  }

  /** A message that the rewrite leaves alone and that has no line break is
      scanned as one line. */
  lemma HarvestSingleLine(s: string)
    requires Rewrite(s) == s && '\n' !in s
    ensures Harvest(s) == if FindAll(s) == [] then [] else [LineColours(s)]
  {
    JoinSplit([s], '\n');
    assert Join([s], "\n") == s;
    assert Lines(s) == Split(s, '\n') == [s];
    var lines := [s];
    assert lines[..0] == [] && lines[|lines| - 1] == s;
    assert HarvestLines(lines) == HarvestLines([]) + (if FindAll(s) != [] then [LineColours(s)] else []);
  }
}
