/** The header file of a raster (src/read.js): each line `KEY VALUE` is
    matched against `/^(\w+)\s+(\S+)/`, the text is split at line feeds, and
    the parsed lines are folded into a key-to-value object. */
module Header {
  import opened Wrappers
  import opened Chars
  import opened Decimal

  /** A header value: the number `parseFloat` reads from the token, or the
      raw token when it reads `NaN`. */
  datatype HeaderValue = Num(num: real) | Text(text: string)

  /** The `[key, value]` pair parseHeaderLine returns. */
  datatype HeaderLine = HeaderLine(key: string, value: HeaderValue)

  /** `isNaN(parseFloat(t)) ? t : parseFloat(t)`. */
  function ToHeaderValue(token: string): (v: HeaderValue)
    ensures v.Num? <==> StartsNumeric(token)
    ensures v.Num? ==> ParseNumber(token) == Some(v.num)
    ensures v.Text? ==> v.text == token
  {
    match ParseNumber(token)
    case Some(x) => Num(x)
    case None => Text(token)
  }

  /** `line` starts with a match of `^(\w+)\s+(\S+)` in which `\w+` covers
      `[0, a)`, `\s+` covers `[a, b)` and `\S+` covers `[b, c)`. */
  predicate RegexShape(line: string, a: int, b: int, c: int)
  {
    && 0 < a < b < c <= |line|
    && (forall i :: 0 <= i < a ==> IsWord(line[i]))
    && (forall i :: a <= i < b ==> IsSpace(line[i]))
    && (forall i :: b <= i < c ==> NotSpace(line[i]))
  }

  /** The `\S+` of the match stops only at white space or at the end, as the
      greedy quantifier makes it. */
  predicate TokenEndsAt(line: string, c: int)
    requires 0 <= c <= |line|
  {
    c == |line| || IsSpace(line[c])
  }

  /** Where the greedy scans of `^(\w+)\s+` stop: the end of the key and
      the start of the token, or `None` when the pattern cannot match. */
  function MatchStart(line: string): (m: Option<(int, int)>)
    ensures m.Some? ==> 0 < m.value.0 < m.value.1 < |line|
  {
    var a := Span(line, IsWord);
    var gap := Span(line[a..], IsSpace);
    if a == 0 || gap == 0 || a + gap == |line| then None else Some((a, a + gap))
  }

  /** parseHeaderLine: `None` (the source's `null`) unless the line matches
      the pattern; otherwise the first group as key and the second group,
      converted, as value. */
  function ParseHeaderLine(line: string): (r: Option<HeaderLine>)
    ensures r.Some? ==> 0 < |r.value.key| < |line| && r.value.key == line[..|r.value.key|]
    ensures r.Some? ==> forall i :: 0 <= i < |r.value.key| ==> IsWord(line[i])
    ensures r.Some? ==> IsSpace(line[|r.value.key|])
  {
    var m := MatchStart(line);
    if m.None? then None
    else
      MatchStartRuns(line);
      Some(HeaderLine(line[..m.value.0], ToHeaderValue(TokenAt(line, m.value.1))))
  }

  /** The `\S+` a greedy scan takes from position `b`. */
  function TokenAt(line: string, b: int): (t: string)
    requires 0 <= b <= |line|
    ensures b + |t| <= |line| && t == line[b..b + |t|]
    ensures forall i :: 0 <= i < |t| ==> NotSpace(t[i])
    ensures TokenEndsAt(line, b + |t|)
  {
    var n := Span(line[b..], NotSpace);
    assert b + n < |line| ==> line[b + n] == line[b..][n];
    line[b..b + n]
  }

  /** Soundness: an accepted line matches the pattern, its key is the first
      group, and its value is the converted second group, taken greedily up
      to white space or the end; text after it is ignored. */
  lemma ParseHeaderLineSound(line: string)
    ensures var r := ParseHeaderLine(line);
            r.Some? ==> exists b, c ::
              RegexShape(line, |r.value.key|, b, c) && TokenEndsAt(line, c)
              && r.value == HeaderLine(line[..|r.value.key|], ToHeaderValue(line[b..c]))
  {
    var m := MatchStart(line);
    if m.Some? {
      var a, b := m.value.0, m.value.1;
      ParsedAt(line, a, b, b + |TokenAt(line, b)|);
    }
  }

  /** The scans behind MatchStart: word characters up to the end of the key,
      white space from there to the token. */
  lemma MatchStartRuns(line: string)
    ensures var m := MatchStart(line);
            m.Some? ==>
              && (forall i :: 0 <= i < m.value.0 ==> IsWord(line[i]))
              && (forall i :: m.value.0 <= i < m.value.1 ==> IsSpace(line[i]))
  {
    var a := Span(line, IsWord);
    var gap := Span(line[a..], IsSpace);
    assert forall i :: a <= i < a + gap ==> line[i] == line[a..][i - a];
  }

  /** The bounds of any match are where the greedy scans stop: the word
      run ends at `a`, the white space after it at `b`, and, when the token
      ends at white space or at the end, the token at `c`. */
  lemma MatchBoundsAreSpans(line: string, a: int, b: int, c: int)
    requires RegexShape(line, a, b, c)
    ensures Span(line, IsWord) == a
    ensures Span(line[a..], IsSpace) == b - a
    ensures TokenEndsAt(line, c) ==> Span(line[b..], NotSpace) == c - b
  {
    SpaceIsNotWord(line[a]);
    RunSpan(line, IsWord, 0, a);
    assert line[0..] == line;
    RunSpan(line, IsSpace, a, b);
    if TokenEndsAt(line, c) {
      RunSpan(line, NotSpace, b, c);
    }
  }

  /** A run of `p` from `from` that stops at `to` is what the greedy scan
      from `from` takes. */
  lemma RunSpan(line: string, p: char -> bool, from: int, to: int)
    requires 0 <= from <= to <= |line|
    requires forall i :: from <= i < to ==> p(line[i])
    requires to == |line| || !p(line[to])
    ensures Span(line[from..], p) == to - from
  {
    var tail := line[from..];
    assert forall i :: 0 <= i < to - from ==> tail[i] == line[from + i];
    assert to < |line| ==> tail[to - from] == line[to];
    SpanIsLongestRun(tail, p, to - from);
  }

  /** The match is unique: two matches whose tokens both end where the greedy
      quantifier stops are the same match. */
  lemma ShapeUnique(line: string, a: int, b: int, c: int, a': int, b': int, c': int)
    requires RegexShape(line, a, b, c) && TokenEndsAt(line, c)
    requires RegexShape(line, a', b', c') && TokenEndsAt(line, c')
    ensures a == a' && b == b' && c == c'
  {
    MatchBoundsAreSpans(line, a, b, c);
    MatchBoundsAreSpans(line, a', b', c');
  }

  /** Every line that matches the pattern is accepted, with the match's
      first group as key and its greedy second group as token. */
  lemma ParseAcceptsEveryMatch(line: string, a: int, b: int, c: int)
    requires RegexShape(line, a, b, c)
    ensures ParseHeaderLine(line).Some?
    ensures ParseHeaderLine(line).value.key == line[..a]
    ensures TokenEndsAt(line, c) ==> ParseHeaderLine(line).value.value == ToHeaderValue(line[b..c])
  {
    MatchBoundsAreSpans(line, a, b, c);
    ParseAtSpans(line, a, b);
    if TokenEndsAt(line, c) {
      TokenAtSpan(line, b, c);
    }
  }

  /** The token scan from `b` ends at `c` when the span of non-space
      characters there has length `c - b`. */
  lemma TokenAtSpan(line: string, b: int, c: int)
    requires 0 <= b <= c <= |line|
    requires Span(line[b..], NotSpace) == c - b
    ensures TokenAt(line, b) == line[b..c]
  {
  }

  /** Once the word run ends at `a` and the white space after it at `b`
      short of the end, the parse is fixed by the token scan from `b`. */
  lemma ParseAtSpans(line: string, a: int, b: int)
    requires 0 < a < b < |line|
    requires Span(line, IsWord) == a
    requires Span(line[a..], IsSpace) == b - a
    ensures ParseHeaderLine(line).Some?
    ensures ParseHeaderLine(line).value.key == line[..a]
    ensures ParseHeaderLine(line).value.value == ToHeaderValue(TokenAt(line, b))
  {
    MatchStartAt(line, a, b);
  }

  lemma MatchStartAt(line: string, a: int, b: int)
    requires 0 < a < b < |line|
    requires Span(line, IsWord) == a
    requires Span(line[a..], IsSpace) == b - a
    ensures MatchStart(line).Some?
    ensures MatchStart(line).value.0 == a && MatchStart(line).value.1 == b
  {
  }

  /** A line that does not match is refused, so ParseHeaderLine accepts
      exactly the lines the pattern matches. */
  lemma ParseRefusesNonMatches(line: string)
    requires forall a, b, c :: !RegexShape(line, a, b, c)
    ensures ParseHeaderLine(line) == None
  {
    ParseHeaderLineSound(line);
  }

  /** Anything after the token, starting with white space, leaves the
      parse unchanged. */
  lemma TrailingTextIgnored(line: string, extra: string)
    requires ParseHeaderLine(line).Some?
    requires |extra| == 0 || IsSpace(extra[0])
    ensures ParseHeaderLine(line + extra) == ParseHeaderLine(line)
  {
    var m := MatchStart(line);
    var a, b := m.value.0, m.value.1;
    var c := b + |TokenAt(line, b)|;
    ParsedAt(line, a, b, c);
    ExtendShape(line, extra, a, b, c);
    ParseAcceptsEveryMatch(line + extra, a, b, c);
    SliceOfPrefix(line, extra, 0, a);
    SliceOfPrefix(line, extra, b, c);
    SameLine(ParseHeaderLine(line + extra), ParseHeaderLine(line));
  }

  /** The match MatchStart and TokenAt find, with `a`, `b` and `c` its
      bounds, has the shape of the pattern, and the parse takes its groups. */
  lemma ParsedAt(line: string, a: int, b: int, c: int)
    requires MatchStart(line).Some?
    requires a == MatchStart(line).value.0 && b == MatchStart(line).value.1
    requires c == b + |TokenAt(line, b)|
    ensures RegexShape(line, a, b, c) && TokenEndsAt(line, c)
    ensures ParseHeaderLine(line).Some?
    ensures ParseHeaderLine(line).value.key == line[..a]
    ensures ParseHeaderLine(line).value.value == ToHeaderValue(line[b..c])
  {
    ShapeAt(line, a, b, c);
    var t := TokenAt(line, b);
    assert t == line[b..c];
  }

  lemma ShapeAt(line: string, a: int, b: int, c: int)
    requires MatchStart(line).Some?
    requires a == MatchStart(line).value.0 && b == MatchStart(line).value.1
    requires c == b + |TokenAt(line, b)|
    ensures RegexShape(line, a, b, c) && TokenEndsAt(line, c)
  {
    MatchStartRuns(line);
    var t := TokenAt(line, b);
    assert forall i :: b <= i < c ==> line[i] == t[i - b];
  }

  /** Appending text that starts with white space keeps a match. */
  lemma ExtendShape(line: string, extra: string, a: int, b: int, c: int)
    requires RegexShape(line, a, b, c) && TokenEndsAt(line, c)
    requires |extra| == 0 || IsSpace(extra[0])
    ensures RegexShape(line + extra, a, b, c) && TokenEndsAt(line + extra, c)
  {
    var long := line + extra;
    assert forall i :: 0 <= i < |line| ==> long[i] == line[i];
    assert c == |line| ==> c == |long| || long[c] == extra[0];
  }

  lemma SliceOfPrefix(line: string, extra: string, i: int, j: int)
    requires 0 <= i <= j <= |line|
    ensures (line + extra)[i..j] == line[i..j]
    ensures i == 0 ==> (line + extra)[..j] == line[..j]
  {
  }

  /** Two parses agree when their keys and values do. */
  lemma SameLine(p: Option<HeaderLine>, q: Option<HeaderLine>)
    requires p.Some? && q.Some?
    requires p.value.key == q.value.key && p.value.value == q.value.value
    ensures p == q
  {
  }

  /** A line whose word run is not followed by white space is refused:
      the `\s+` of the pattern cannot match. */
  lemma NoSpaceAfterKeyRefused(line: string, a: int)
    requires 0 <= a <= |line| && Span(line, IsWord) == a
    requires a == 0 || a == |line| || !IsSpace(line[a])
    ensures ParseHeaderLine(line) == None
  {
    assert a < |line| ==> line[a..][0] == line[a];
  }

  /** Leading white space is refused. */
  lemma LeadingSpaceRefused(line: string)
    requires |line| > 0 && IsSpace(line[0])
    ensures ParseHeaderLine(line) == None
  {
    SpaceIsNotWord(line[0]);
    NoSpaceAfterKeyRefused(line, 0);
  }

  /** `KEY=VALUE` is refused, whatever the value. */
  lemma EqualsSignRefused(key: string, value: string)
    requires forall i :: 0 <= i < |key| ==> IsWord(key[i])
    ensures ParseHeaderLine(key + "=" + value) == None
  {
    var line := key + "=" + value;
    assert forall i :: 0 <= i < |key| ==> line[i] == key[i];
    assert line[|key|] == '=';
    SpanIsLongestRun(line, IsWord, |key|);
    NoSpaceAfterKeyRefused(line, |key|);
  }

  /** A line made of a key, one space and a decimal integer yields that
      key and that number. */
  lemma KeyNumberLineParsed(key: string, n: int)
    requires |key| > 0 && forall i :: 0 <= i < |key| ==> IsWord(key[i])
    ensures ParseHeaderLine(key + " " + IntToDecimal(n)) == Some(HeaderLine(key, Num(n as real)))
  {
    var num := IntToDecimal(n);
    var line := key + " " + num;
    DecimalHasNoSpace(n);
    KeySpaceTokenShape(key, num);
    ParseAcceptsEveryMatch(line, |key|, |key| + 1, |line|);
    ParseIntRoundTrip(n);
    SameLine(ParseHeaderLine(line), Some(HeaderLine(key, Num(n as real))));
  }

  /** `key + " " + token` matches with the key and the token as groups. */
  lemma KeySpaceTokenShape(key: string, token: string)
    requires |key| > 0 && forall i :: 0 <= i < |key| ==> IsWord(key[i])
    requires |token| > 0 && forall i :: 0 <= i < |token| ==> NotSpace(token[i])
    ensures var line := key + " " + token;
            && RegexShape(line, |key|, |key| + 1, |line|)
            && line[..|key|] == key && line[|key| + 1..|line|] == token
  {
    var line := key + " " + token;
    assert forall i :: 0 <= i < |key| ==> line[i] == key[i];
    assert line[|key|] == ' ';
    assert forall i :: |key| + 1 <= i < |line| ==> line[i] == token[i - |key| - 1];
  }

  /** A decimal integer contains no white space. */
  lemma DecimalHasNoSpace(n: int)
    ensures forall i :: 0 <= i < |IntToDecimal(n)| ==> NotSpace(IntToDecimal(n)[i])
  {
    var ds := if n < 0 then NatToDigits(-n) else NatToDigits(n);
    assert forall i :: 0 <= i < |ds| ==> IsDigit(ds[i]);
  }

  /** `text.split(/\n/)`: the pieces between line feeds, at least one. */
  function SplitLines(text: string): (lines: seq<string>)
    ensures |lines| >= 1
    ensures forall l <- lines :: '\n' !in l
    ensures JoinLines(lines) == text
    decreases |text|
  {
    var n := Span(text, NotNewline);
    assert forall i :: 0 <= i < n ==> text[..n][i] != '\n';
    if n == |text| then
      assert text[..n] == text;
      [text]
    else
      var rest := SplitLines(text[n + 1..]);
      assert text == text[..n] + "\n" + text[n + 1..];
      assert ([text[..n]] + rest)[1..] == rest;
      [text[..n]] + rest
  }

  /** The pieces glued back together with line feeds. */
  function JoinLines(lines: seq<string>): string
    requires |lines| >= 1
  {
    if |lines| == 1 then lines[0] else lines[0] + "\n" + JoinLines(lines[1..])
  }

  /** The other direction of the round trip: splitting lines without line
      feeds after joining them gives the lines back. */
  lemma {:induction false} SplitJoinRoundTrip(lines: seq<string>)
    requires |lines| >= 1
    requires forall l <- lines :: '\n' !in l
    ensures SplitLines(JoinLines(lines)) == lines
    decreases |lines|
  {
    var first := lines[0];
    var text := JoinLines(lines);
    assert first in lines;
    forall i | 0 <= i < |first|
      ensures NotNewline(first[i])
    {
      assert first[i] in first;
    }
    if |lines| == 1 {
      SpanIsLongestRun(text, NotNewline, |first|);
      assert text[..|first|] == first;
    } else {
      var rest := JoinLines(lines[1..]);
      assert text == first + "\n" + rest;
      assert text[|first|] == '\n';
      assert forall i :: 0 <= i < |first| ==> text[i] == first[i];
      SpanIsLongestRun(text, NotNewline, |first|);
      assert text[..|first|] == first;
      assert text[|first| + 1..] == rest;
      assert forall l <- lines[1..] :: l in lines;
      SplitJoinRoundTrip(lines[1..]);
    }
  }

  /** The one key the fold cannot store: on a plain object,
      `config['__proto__'] = v` sets the prototype when `v` is an object and
      does nothing otherwise, and header values are numbers or strings. */
  const ProtoKey: string := "__proto__"

  /** One step of the reduce: `config[key] = value`. */
  function Assign(config: map<string, HeaderValue>, h: HeaderLine): (r: map<string, HeaderValue>)
    ensures h.key == ProtoKey ==> r == config
    ensures h.key != ProtoKey ==> h.key in r && r[h.key] == h.value
    ensures forall k :: k != h.key ==> (k in r <==> k in config)
    ensures forall k :: k != h.key && k in config ==> r[k] == config[k]
  {
    if h.key == ProtoKey then config else config[h.key := h.value]
  }

  /** The reduce of readHeaderFile, starting from `{}`: one assignment per
      pair, in order. */
  function FoldHeaders(hs: seq<HeaderLine>): (m: map<string, HeaderValue>)
    ensures BindsExactly(hs, m)
    ensures LastWins(hs, m)
  {
    if |hs| == 0 then
      map[]
    else
      var init, h := hs[..|hs| - 1], hs[|hs| - 1];
      var prev := FoldHeaders(init);
      assert hs == init + [h];
      AssignKeepsBindsExactly(init, h, prev);
      AssignKeepsLastWins(init, h, prev);
      Assign(prev, h)
  }

  /** `m` binds exactly the keys some pair of `hs` carries, `__proto__`
      aside. */
  ghost predicate BindsExactly(hs: seq<HeaderLine>, m: map<string, HeaderValue>)
  {
    forall k :: k in m <==> k != ProtoKey && exists i :: 0 <= i < |hs| && hs[i].key == k
  }

  /** `m` binds each key to the value of the last pair of `hs` carrying it. */
  predicate LastWins(hs: seq<HeaderLine>, m: map<string, HeaderValue>)
  {
    forall i :: 0 <= i < |hs| && hs[i].key != ProtoKey
                && (forall j :: i < j < |hs| ==> hs[j].key != hs[i].key) ==>
      hs[i].key in m && m[hs[i].key] == hs[i].value
  }

  /** One more assignment keeps the key set exact. */
  lemma AssignKeepsBindsExactly(hs: seq<HeaderLine>, h: HeaderLine, m: map<string, HeaderValue>)
    requires BindsExactly(hs, m)
    ensures BindsExactly(hs + [h], Assign(m, h))
  {
    var hs', m' := hs + [h], Assign(m, h);
    forall k
      ensures k in m' <==> k != ProtoKey && exists i :: 0 <= i < |hs'| && hs'[i].key == k
    {
      if k == h.key {
        assert hs'[|hs|].key == k;
      } else if exists i :: 0 <= i < |hs'| && hs'[i].key == k {
        var i :| 0 <= i < |hs'| && hs'[i].key == k;
        assert hs[i].key == k;
      } else {
        forall i | 0 <= i < |hs|
          ensures hs[i].key != k
        {
          assert hs'[i] == hs[i];
        }
      }
    }
  }

  /** One more assignment keeps the last pair for every key winning. */
  lemma AssignKeepsLastWins(hs: seq<HeaderLine>, h: HeaderLine, m: map<string, HeaderValue>)
    requires LastWins(hs, m)
    ensures LastWins(hs + [h], Assign(m, h))
  {
    var hs' := hs + [h];
    forall i | 0 <= i < |hs'| && hs'[i].key != ProtoKey
               && (forall j :: i < j < |hs'| ==> hs'[j].key != hs'[i].key)
      ensures hs'[i].key in Assign(m, h) && Assign(m, h)[hs'[i].key] == hs'[i].value
    {
      if i < |hs| {
        assert hs'[i] == hs[i];
        assert hs'[|hs|] == h;
        forall j | i < j < |hs|
          ensures hs[j].key != hs[i].key
        {
          assert hs'[j] == hs[j];
        }
        EarlierPairWins(hs, h, m, i);
      }
    }
  }

  /** A pair no later pair overrides keeps winning after an assignment to
      another key. */
  lemma EarlierPairWins(hs: seq<HeaderLine>, h: HeaderLine, m: map<string, HeaderValue>, i: int)
    requires LastWins(hs, m)
    requires 0 <= i < |hs| && hs[i].key != ProtoKey && h.key != hs[i].key
    requires forall j :: i < j < |hs| ==> hs[j].key != hs[i].key
    ensures hs[i].key in Assign(m, h) && Assign(m, h)[hs[i].key] == hs[i].value
  {
  }

  /** The lines of a header text, each parsed (`.map(parseHeaderLine)`). */
  function ParsedLines(text: string): (ps: seq<Option<HeaderLine>>)
    ensures var lines := SplitLines(text);
            |ps| == |lines| && forall i :: 0 <= i < |ps| ==> ps[i] == ParseHeaderLine(lines[i])
  {
    var lines := SplitLines(text);
    seq(|lines|, i requires 0 <= i < |lines| => ParseHeaderLine(lines[i]))
  }

  /** The key a line defines, if it parses. */
  function KeyOf(p: Option<HeaderLine>): Option<string>
  {
    if p.Some? then Some(p.value.key) else None
  }

  /** `.filter(v => v).reduce(...)` over the parsed lines: a key is bound
      exactly when some line that parsed carries it, and then to the value
      of the last such line. */
  function FoldParsed(ps: seq<Option<HeaderLine>>): (m: map<string, HeaderValue>)
    ensures forall k :: k in m <==> k != ProtoKey && exists i :: 0 <= i < |ps| && KeyOf(ps[i]) == Some(k)
    ensures forall i :: 0 <= i < |ps| && ps[i].Some? && ps[i].value.key != ProtoKey
                        && (forall j :: i < j < |ps| ==> KeyOf(ps[j]) != Some(ps[i].value.key)) ==>
              ps[i].value.key in m && m[ps[i].value.key] == ps[i].value.value
  {
    assert ps[..|ps|] == ps;
    FoldPrefixFiltered(ps, |ps|);
    FoldPrefixKeys(ps, |ps|);
    FoldPrefixValues(ps, |ps|);
    FoldHeaders(Compact(ps))
  }

  /** readHeaderFile once the file is read: split, parse, filter, fold. */
  function ReadHeaderText(text: string): (m: map<string, HeaderValue>)
    ensures var lines := SplitLines(text);
            forall k :: k in m <==>
              k != ProtoKey && exists i :: 0 <= i < |lines| && KeyOf(ParseHeaderLine(lines[i])) == Some(k)
    ensures var lines := SplitLines(text);
            forall i :: 0 <= i < |lines| && ParseHeaderLine(lines[i]).Some?
                        && ParseHeaderLine(lines[i]).value.key != ProtoKey
                        && (forall j :: i < j < |lines| ==>
                              KeyOf(ParseHeaderLine(lines[j])) != Some(ParseHeaderLine(lines[i]).value.key)) ==>
              ParseHeaderLine(lines[i]).value.key in m
              && m[ParseHeaderLine(lines[i]).value.key] == ParseHeaderLine(lines[i]).value.value
  {
    FoldParsed(ParsedLines(text))
  }

  /** Filtering one more element appends it when it is present. */
  lemma CompactSnoc(ps: seq<Option<HeaderLine>>, n: int)
    requires 0 < n <= |ps|
    ensures Compact(ps[..n])
            == Compact(ps[..n - 1]) + (if ps[n - 1].Some? then [ps[n - 1].value] else [])
  {
    assert ps[..n][..n - 1] == ps[..n - 1];
  }

  /** Folding one more pair is one more assignment. */
  lemma FoldSnoc(hs: seq<HeaderLine>, h: HeaderLine)
    ensures FoldHeaders(hs + [h]) == Assign(FoldHeaders(hs), h)
  {
    assert (hs + [h])[..|hs|] == hs;
  }

  /** One step over a parsed line: its pair assigned when it parsed,
      nothing done when it did not. */
  function AssignLine(config: map<string, HeaderValue>, p: Option<HeaderLine>): map<string, HeaderValue>
  {
    if p.Some? then Assign(config, p.value) else config
  }

  /** The fold over the first `n` parsed lines, stepping over the lines that
      did not parse. */
  function FoldPrefix(ps: seq<Option<HeaderLine>>, n: int): map<string, HeaderValue>
    requires 0 <= n <= |ps|
  {
    if n == 0 then map[] else AssignLine(FoldPrefix(ps, n - 1), ps[n - 1])
  }

  /** Stepping over the unparsed lines is the same as filtering them out
      first and folding what is left. */
  lemma {:induction false} FoldPrefixFiltered(ps: seq<Option<HeaderLine>>, n: int)
    requires 0 <= n <= |ps|
    ensures FoldPrefix(ps, n) == FoldHeaders(Compact(ps[..n]))
  {
    if n > 0 {
      FoldPrefixFiltered(ps, n - 1);
      FilteredStep(ps, n, Compact(ps[..n - 1]), Compact(ps[..n]));
    } else {
      assert ps[..0] == [];
    }
  }

  /** Filtering and folding one more line is one more step over it. */
  lemma FilteredStep(ps: seq<Option<HeaderLine>>, n: int, prev: seq<HeaderLine>, cur: seq<HeaderLine>)
    requires 0 < n <= |ps| && prev == Compact(ps[..n - 1]) && cur == Compact(ps[..n])
    ensures FoldHeaders(cur) == AssignLine(FoldHeaders(prev), ps[n - 1])
  {
    CompactSnoc(ps, n);
    if ps[n - 1].Some? {
      FoldSnoc(prev, ps[n - 1].value);
    }
  }

  /** The keys bound after the first `n` lines are those some parsed line
      among them carries. */
  lemma FoldPrefixKeys(ps: seq<Option<HeaderLine>>, n: int)
    requires 0 <= n <= |ps|
    ensures forall k :: k in FoldPrefix(ps, n) <==>
              k != ProtoKey && exists i :: 0 <= i < n && KeyOf(ps[i]) == Some(k)
  {
    forall k
      ensures k in FoldPrefix(ps, n) <==>
              k != ProtoKey && exists i :: 0 <= i < n && KeyOf(ps[i]) == Some(k)
    {
      FoldPrefixHasKey(ps, n, k);
    }
  }

  /** One key at a time, by induction on the number of lines. */
  lemma {:induction false} FoldPrefixHasKey(ps: seq<Option<HeaderLine>>, n: int, k: string)
    requires 0 <= n <= |ps|
    ensures k in FoldPrefix(ps, n) <==>
              k != ProtoKey && exists i :: 0 <= i < n && KeyOf(ps[i]) == Some(k)
  {
    if n > 0 {
      FoldPrefixHasKey(ps, n - 1, k);
      if KeyOf(ps[n - 1]) == Some(k) {
        if k != ProtoKey {
          assert k in FoldPrefix(ps, n);
        }
      } else {
        assert k in FoldPrefix(ps, n) <==> k in FoldPrefix(ps, n - 1);
        if exists i :: 0 <= i < n && KeyOf(ps[i]) == Some(k) {
          var i :| 0 <= i < n && KeyOf(ps[i]) == Some(k);
          assert i < n - 1;
        }
      }
    }
  }

  /** After the first `n` lines, each key is bound to the value of the last
      parsed line among them carrying it. */
  lemma FoldPrefixValues(ps: seq<Option<HeaderLine>>, n: int)
    requires 0 <= n <= |ps|
    ensures forall i :: 0 <= i < n && ps[i].Some? && ps[i].value.key != ProtoKey
                        && (forall j :: i < j < n ==> KeyOf(ps[j]) != Some(ps[i].value.key)) ==>
              ps[i].value.key in FoldPrefix(ps, n)
              && FoldPrefix(ps, n)[ps[i].value.key] == ps[i].value.value
  {
    forall i | 0 <= i < n && ps[i].Some? && ps[i].value.key != ProtoKey
               && (forall j :: i < j < n ==> KeyOf(ps[j]) != Some(ps[i].value.key))
      ensures ps[i].value.key in FoldPrefix(ps, n)
              && FoldPrefix(ps, n)[ps[i].value.key] == ps[i].value.value
    {
      FoldPrefixValueAt(ps, n, i);
    }
  }

  /** One line at a time, by induction on the number of lines after it. */
  lemma {:induction false} FoldPrefixValueAt(ps: seq<Option<HeaderLine>>, n: int, i: int)
    requires 0 <= i < n <= |ps| && ps[i].Some? && ps[i].value.key != ProtoKey
    requires forall j :: i < j < n ==> KeyOf(ps[j]) != Some(ps[i].value.key)
    ensures ps[i].value.key in FoldPrefix(ps, n)
            && FoldPrefix(ps, n)[ps[i].value.key] == ps[i].value.value
    decreases n
  {
    if i < n - 1 {
      FoldPrefixValueAt(ps, n - 1, i);
      assert KeyOf(ps[n - 1]) != Some(ps[i].value.key);
    }
  }
}
