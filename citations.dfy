/**
 * Removal of the retrieval citations that the assistant embeds in its
 * answers: every non-overlapping occurrence of
 *     【 digits : digits † source 】
 * found in one left-to-right pass is deleted (tutor-ai.py, line 34).
 */
module Citations {
  import opened Wrappers

  /** U+3010, the opening lenticular bracket. */
  const Open: char := '\U{3010}'
  /** U+3011, the closing lenticular bracket. */
  const Close: char := '\U{3011}'
  /** U+2020, the dagger. */
  const Dagger: char := '\U{2020}'
  /** What a marker holds after its second number. */
  const Tail: string := [Dagger, 's', 'o', 'u', 'r', 'c', 'e', Close]

  predicate IsDigit(c: char) {
    '0' <= c <= '9'
  }

  predicate AllDigits(d: string) {
    forall k :: 0 <= k < |d| ==> IsDigit(d[k])
  }

  /** What `\d+` matches: one or more digits. */
  predicate IsNumber(d: string) {
    |d| > 0 && AllDigits(d)
  }

  /** The citation marker with numbers `a` and `b`. */
  function Marker(a: string, b: string): string {
    [Open] + a + [':'] + b + Tail
  }

  ghost predicate IsMarker(m: string) {
    exists a, b :: IsNumber(a) && IsNumber(b) && m == Marker(a, b)
  }

  /** `s[i..i + len]` is a whole citation marker. */
  ghost predicate MarkerAt(s: string, i: int, len: int) {
    0 <= i && 0 <= len && i + len <= |s| && IsMarker(s[i..i + len])
  }

  ghost predicate MarkerFree(s: string) {
    forall i, len :: !MarkerAt(s, i, len)
  }

  /** The end of the longest run of digits that starts at `i`. */
  function DigitsEnd(s: string, i: nat): (j: nat)
    requires i <= |s|
    ensures i <= j <= |s| && AllDigits(s[i..j])
    ensures j < |s| ==> !IsDigit(s[j])
    decreases |s| - i
  {
    if i < |s| && IsDigit(s[i]) then DigitsEnd(s, i + 1) else i
  }

  lemma {:induction false} DigitsEndAt(s: string, i: nat, j: nat)
    requires i <= j <= |s| && AllDigits(s[i..j])
    requires j < |s| ==> !IsDigit(s[j])
    ensures DigitsEnd(s, i) == j
    decreases j - i
  {
    if i < j {
      assert IsDigit(s[i..j][0]);
      assert s[i + 1..j] == s[i..j][1..];
      DigitsEndAt(s, i + 1, j);
    }
  }

  lemma MarkerParts(a: string, b: string)
    ensures var m := Marker(a, b);
      |m| == |a| + |b| + 2 + |Tail| && m[0] == Open &&
      m[1..1 + |a|] == a && m[1 + |a|] == ':' &&
      m[2 + |a|..2 + |a| + |b|] == b && m[2 + |a| + |b|..] == Tail
  {
  }

  lemma SliceOfSlice(s: string, i: nat, len: nat, x: nat, y: nat)
    requires i + len <= |s| && x <= y <= len
    ensures s[i..i + len][x..y] == s[i + x..i + y]
  {
    forall p | i + x <= p < i + y
      ensures s[i..i + len][x..y][p - i - x] == s[p]
    {
    }
  }

  /** The marker `Marker(a, b)` sits at `i` in `s`. */
  ghost predicate MarkerWith(s: string, i: nat, a: string, b: string) {
    IsNumber(a) && IsNumber(b) && i + |Marker(a, b)| <= |s| && s[i..i + |Marker(a, b)|] == Marker(a, b)
  }

  lemma FirstNumberParse(s: string, i: nat, a: string, b: string)
    requires MarkerWith(s, i, a, b)
    ensures i < |s| && s[i] == Open
    ensures DigitsEnd(s, i + 1) == i + 1 + |a| && s[i + 1 + |a|] == ':'
  {
    var m := Marker(a, b);
    MarkerParts(a, b);
    assert s[i] == m[0];
    SliceOfSlice(s, i, |m|, 1, 1 + |a|);
    assert s[i + 1 + |a|] == m[1 + |a|];
    DigitsEndAt(s, i + 1, i + 1 + |a|);
  }

  lemma SecondNumberParse(s: string, i: nat, a: string, b: string)
    requires MarkerWith(s, i, a, b)
    ensures var k := i + 2 + |a| + |b|;
      DigitsEnd(s, i + 2 + |a|) == k && k + |Tail| <= |s| && s[k..k + |Tail|] == Tail
  {
    var m := Marker(a, b);
    var k := i + 2 + |a| + |b|;
    MarkerParts(a, b);
    SliceOfSlice(s, i, |m|, 2 + |a|, 2 + |a| + |b|);
    assert s[k] == m[2 + |a| + |b|] == Tail[0];
    DigitsEndAt(s, i + 2 + |a|, k);
    SliceOfSlice(s, i, |m|, 2 + |a| + |b|, |m|);
  }

  /** A marker at `i` is exactly what the scanner in MatchAt recognises. */
  lemma MarkerParse(s: string, i: nat, len: nat)
    requires MarkerAt(s, i, len)
    ensures i < |s| && s[i] == Open
    ensures var j := DigitsEnd(s, i + 1);
      i + 1 < j < |s| && s[j] == ':' &&
      var k := DigitsEnd(s, j + 1);
      j + 1 < k && k + |Tail| <= |s| && s[k..k + |Tail|] == Tail && len == k + |Tail| - i
  {
    var a, b :| IsNumber(a) && IsNumber(b) && s[i..i + len] == Marker(a, b);
    MarkerParts(a, b);
    assert MarkerWith(s, i, a, b);
    FirstNumberParse(s, i, a, b);
    SecondNumberParse(s, i, a, b);
  }

  lemma MarkerParseAll(s: string, i: nat)
    requires i <= |s|
    ensures forall len :: MarkerAt(s, i, len) ==>
      i < |s| && s[i] == Open &&
      var j := DigitsEnd(s, i + 1);
      i + 1 < j < |s| && s[j] == ':' &&
      var k := DigitsEnd(s, j + 1);
      j + 1 < k && k + |Tail| <= |s| && s[k..k + |Tail|] == Tail && len == k + |Tail| - i
  {
    forall len | MarkerAt(s, i, len)
      ensures i < |s| && s[i] == Open &&
        var j := DigitsEnd(s, i + 1);
        i + 1 < j < |s| && s[j] == ':' &&
        var k := DigitsEnd(s, j + 1);
        j + 1 < k && k + |Tail| <= |s| && s[k..k + |Tail|] == Tail && len == k + |Tail| - i
    {
      MarkerParse(s, i, len);
    }
  }

  lemma MarkerFound(s: string, i: nat, j: nat, k: nat)
    requires i < j < k && k + |Tail| <= |s| && s[i] == Open && s[j] == ':'
    requires IsNumber(s[i + 1..j]) && IsNumber(s[j + 1..k]) && s[k..k + |Tail|] == Tail
    ensures MarkerAt(s, i, k + |Tail| - i)
  {
    var a, b := s[i + 1..j], s[j + 1..k];
    var m := s[i..k + |Tail|];
    MarkerParts(a, b);
    assert m == [s[i]] + s[i + 1..j] + [s[j]] + s[j + 1..k] + s[k..k + |Tail|];
    assert m == Marker(a, b);
  }

  /**
   * The length of the marker that starts at `i`, if one does: the regular
   * expression is tried at `i` and succeeds for at most one length.
   */
  function MatchAt(s: string, i: nat): (r: Option<nat>)
    requires i <= |s|
    ensures r.Some? ==> 2 + 2 + |Tail| <= r.value <= |s| - i && s[i] == Open
  {
    if i < |s| && s[i] == Open then
      var j := DigitsEnd(s, i + 1);
      if i + 1 < j < |s| && s[j] == ':' then
        var k := DigitsEnd(s, j + 1);
        if j + 1 < k && k + |Tail| <= |s| && s[k..k + |Tail|] == Tail then
          Some(k + |Tail| - i)
        else
          None
      else
        None
    else
      None
  }

  /** The scan in MatchAt finds exactly the marker that starts at `i`. */
  lemma MatchAtExact(s: string, i: nat)
    requires i <= |s|
    ensures forall len :: MarkerAt(s, i, len) <==> MatchAt(s, i) == Some(len)
  {
    MarkerParseAll(s, i);
    if MatchAt(s, i).Some? {
      var j := DigitsEnd(s, i + 1);
      MarkerFound(s, i, j, DigitsEnd(s, j + 1));
    }
  }

  /**
   * `re.sub` with an empty replacement: at each position, a marker that
   * starts there is deleted and the scan resumes after it; otherwise the
   * character is kept and the scan moves one character on.
   */
  function Strip(s: string): (r: string)
    ensures |r| <= |s|
    decreases |s|
  {
    if s == [] then []
    else match MatchAt(s, 0)
      case Some(n) => Strip(s[n..])
      case None => [s[0]] + Strip(s[1..])
  }

  /** `r` can be obtained from `s` by deleting characters. */
  ghost predicate IsSubsequence(r: string, s: string)
    decreases |s|
  {
    r == [] || (s != [] && ((r[0] == s[0] && IsSubsequence(r[1..], s[1..])) || IsSubsequence(r, s[1..])))
  }

  lemma {:induction false} SubsequenceOfSuffix(r: string, s: string, n: nat)
    requires n <= |s| && IsSubsequence(r, s[n..])
    ensures IsSubsequence(r, s)
    decreases n
  {
    if n > 0 && r != [] {
      assert s[n - 1..][1..] == s[n..];
      SubsequenceOfSuffix(r, s, n - 1);
    }
  }

  /** Stripping only deletes: what is left keeps its order. */
  lemma {:induction false} StripIsSubsequence(s: string)
    ensures IsSubsequence(Strip(s), s)
    decreases |s|
  {
    if s != [] {
      match MatchAt(s, 0)
      case Some(n) =>
        StripIsSubsequence(s[n..]);
        SubsequenceOfSuffix(Strip(s), s, n);
      case None =>
        StripIsSubsequence(s[1..]);
    }
  }

  lemma MarkerInSuffix(s: string, d: nat, i: int, len: int)
    requires d <= |s| && MarkerAt(s[d..], i, len)
    ensures MarkerAt(s, i + d, len)
  {
    assert s[d..][i..i + len] == s[i + d..i + d + len];
  }

  lemma MarkerFreeSuffix(s: string, d: nat)
    requires d <= |s| && MarkerFree(s)
    ensures MarkerFree(s[d..])
  {
    forall i, len | MarkerAt(s[d..], i, len) ensures false {
      MarkerInSuffix(s, d, i, len);
    }
  }

  lemma {:induction false} StripMarkerFree(s: string)
    requires MarkerFree(s)
    ensures Strip(s) == s
    decreases |s|
  {
    if s != [] {
      MatchAtExact(s, 0);
      assert MatchAt(s, 0).None?;
      MarkerFreeSuffix(s, 1);
      StripMarkerFree(s[1..]);
    }
  }

  /** Any marker in the input makes the output strictly shorter. */
  lemma {:induction false} StripShortens(s: string, i: nat, len: nat)
    requires MarkerAt(s, i, len)
    ensures |Strip(s)| < |s|
    decreases i
  {
    MatchAtExact(s, 0);
    match MatchAt(s, 0)
    case Some(n) =>
    case None =>
      assert i != 0;
      assert s[1..][i - 1..i - 1 + len] == s[i..i + len];
      assert MarkerAt(s[1..], i - 1, len);
      StripShortens(s[1..], i - 1, len);
  }

  /** Stripping leaves a string unchanged exactly when it holds no marker. */
  lemma StripUnchangedIff(s: string)
    ensures Strip(s) == s <==> MarkerFree(s)
  {
    if MarkerFree(s) {
      StripMarkerFree(s);
    } else {
      var i, len :| MarkerAt(s, i, len);
      StripShortens(s, i, len);
    }
  }

  /** A marker is deleted as a whole, wherever it is followed by. */
  lemma StripLeadingMarker(a: string, b: string, rest: string)
    requires IsNumber(a) && IsNumber(b)
    ensures Strip(Marker(a, b) + rest) == Strip(rest)
  {
    var m := Marker(a, b);
    var s := m + rest;
    assert s[0..|m|] == m;
    assert MarkerAt(s, 0, |m|);
    MatchAtExact(s, 0);
    assert s[|m|..] == rest;
  }

  /** No character after the first one of a marker opens another. */
  lemma MarkerInterior(s: string, i: nat, len: nat, p: nat)
    requires MarkerAt(s, i, len) && i < p < i + len
    ensures s[p] != Open
  {
    var a, b :| IsNumber(a) && IsNumber(b) && s[i..i + len] == Marker(a, b);
    var m := s[i..i + len];
    MarkerParts(a, b);
    var t := p - i;
    assert s[p] == m[t];
    if t <= |a| {
      assert m[t] == m[1..1 + |a|][t - 1];
    } else if t == 1 + |a| {
    } else if t < 2 + |a| + |b| {
      assert m[t] == m[2 + |a|..2 + |a| + |b|][t - 2 - |a|];
    } else {
      assert m[t] == m[2 + |a| + |b|..][t - 2 - |a| - |b|];
    }
  }

  /** A piece of an answer: one character of text, or an inserted citation. */
  datatype Piece = Char(c: char) | Cite(a: string, b: string)

  predicate WellFormed(ps: seq<Piece>) {
    forall k :: 0 <= k < |ps| && ps[k].Cite? ==> IsNumber(ps[k].a) && IsNumber(ps[k].b)
  }

  function Delivered(p: Piece): string {
    match p
    case Char(c) => [c]
    case Cite(a, b) => Marker(a, b)
  }

  function Written(p: Piece): string {
    match p
    case Char(c) => [c]
    case Cite(_, _) => []
  }

  /** The answer as delivered, citations included. */
  function Render(ps: seq<Piece>): string {
    if ps == [] then [] else Delivered(ps[0]) + Render(ps[1..])
  }

  /** The answer's text with the citations left out. */
  function Plain(ps: seq<Piece>): string {
    if ps == [] then [] else Written(ps[0]) + Plain(ps[1..])
  }

  /** The number of text characters before the first citation. */
  function LeadLength(ps: seq<Piece>): nat {
    if ps != [] && ps[0].Char? then 1 + LeadLength(ps[1..]) else 0
  }

  lemma {:induction false} LeadAgrees(ps: seq<Piece>)
    ensures var n := LeadLength(ps);
      n <= |Render(ps)| && n <= |Plain(ps)| && Render(ps)[..n] == Plain(ps)[..n] &&
      (n < |Render(ps)| ==> Render(ps)[n] == Open)
  {
    if ps != [] {
      match ps[0]
      case Cite(a, b) =>
        MarkerParts(a, b);
        assert Render(ps)[0] == Delivered(ps[0])[0];
      case Char(c) =>
        LeadAgrees(ps[1..]);
        var n := LeadLength(ps[1..]);
        var r, w := Render(ps[1..]), Plain(ps[1..]);
        assert Render(ps) == [c] + r && Plain(ps) == [c] + w;
        assert ([c] + r)[..n + 1] == [c] + r[..n];
        assert ([c] + w)[..n + 1] == [c] + w[..n];
        assert n < |r| ==> ([c] + r)[n + 1] == r[n];
    }
  }

  /**
   * When the answer starts with text, a marker at its start lies within
   * the leading text, so the text without citations starts with it too.
   */
  lemma MarkerBeforeText(ps: seq<Piece>)
    requires ps != [] && ps[0].Char?
    ensures forall len :: MarkerAt(Render(ps), 0, len) ==> MarkerAt(Plain(ps), 0, len)
  {
    var s, w := Render(ps), Plain(ps);
    forall len | MarkerAt(s, 0, len) ensures MarkerAt(w, 0, len) {
      var n := LeadLength(ps);
      LeadAgrees(ps);
      if n < len {
        MarkerInterior(s, 0, len, n);
        assert false;
      }
      assert s[..len] == s[..n][..len];
      assert w[..len] == w[..n][..len];
    }
  }

  lemma WellFormedTail(ps: seq<Piece>)
    requires ps != [] && WellFormed(ps)
    ensures WellFormed(ps[1..])
  {
    forall k | 0 <= k < |ps[1..]| && ps[1..][k].Cite?
      ensures IsNumber(ps[1..][k].a) && IsNumber(ps[1..][k].b)
    {
      assert ps[1..][k] == ps[k + 1];
    }
  }

  /**
   * Inserting well-formed citations anywhere into a marker-free text and
   * stripping gives back exactly that text.
   */
  lemma {:induction false} StripRemovesInserted(ps: seq<Piece>)
    requires WellFormed(ps) && MarkerFree(Plain(ps))
    ensures Strip(Render(ps)) == Plain(ps)
  {
    if ps != [] {
      WellFormedTail(ps);
      if ps[0].Cite? {
        StripAfterCite(ps);
      } else {
        StripAfterChar(ps);
      }
      StripRemovesInserted(ps[1..]);
    }
  }

  lemma StripAfterCite(ps: seq<Piece>)
    requires ps != [] && ps[0].Cite? && IsNumber(ps[0].a) && IsNumber(ps[0].b)
    ensures Strip(Render(ps)) == Strip(Render(ps[1..])) && Plain(ps) == Plain(ps[1..])
  {
    StripLeadingMarker(ps[0].a, ps[0].b, Render(ps[1..]));
  }

  lemma StripAfterChar(ps: seq<Piece>)
    requires ps != [] && ps[0].Char? && MarkerFree(Plain(ps))
    ensures Strip(Render(ps)) == [ps[0].c] + Strip(Render(ps[1..]))
    ensures Plain(ps) == [ps[0].c] + Plain(ps[1..]) && MarkerFree(Plain(ps[1..]))
  {
    var s := Render(ps);
    MarkerBeforeText(ps);
    MatchAtExact(s, 0);
    assert MatchAt(s, 0).None?;
    assert s[1..] == Render(ps[1..]);
    MarkerFreeSuffix(Plain(ps), 1);
    assert Plain(ps)[1..] == Plain(ps[1..]);
  }

  /** A character at which no marker starts is kept. */
  lemma StripKeepsUnmatched(s: string)
    requires s != [] && MatchAt(s, 0).None?
    ensures Strip(s) == [s[0]] + Strip(s[1..])
  {
  }

  /** In particular, a character other than an opening bracket is kept. */
  lemma StripKeepsText(s: string)
    requires s != [] && s[0] != Open
    ensures Strip(s) == [s[0]] + Strip(s[1..])
  {
    StripKeepsUnmatched(s);
  }

  predicate NoOpen(x: string) {
    forall k :: 0 <= k < |x| ==> x[k] != Open
  }

  /** Text without an opening bracket passes through unchanged. */
  lemma {:induction false} StripKeepsPrefix(x: string, rest: string)
    requires NoOpen(x)
    ensures Strip(x + rest) == x + Strip(rest)
    decreases |x|
  {
    var s := x + rest;
    if x == [] {
      assert s == rest;
    } else {
      assert s[0] == x[0] && s[1..] == x[1..] + rest;
      StripKeepsText(s);
      StripKeepsPrefix(x[1..], rest);
      calc {
        Strip(s);
        [x[0]] + Strip(x[1..] + rest);
        [x[0]] + (x[1..] + Strip(rest));
        { assert x == [x[0]] + x[1..]; }
        x + Strip(rest);
      }
    }
  }

  /**
   * A marker whose second number is interrupted by another marker: the
   * outer brackets only become a marker once the inner one is deleted.
   */
  function Nested(a: string, b: string, c: string, d: string): string {
    [Open] + a + [':'] + Marker(b, c) + d + Tail
  }

  lemma NestedNotMatchedAtStart(a: string, b: string, c: string, d: string)
    requires IsNumber(a) && IsNumber(b) && IsNumber(c) && IsNumber(d)
    ensures MatchAt(Nested(a, b, c, d), 0) == None
  {
    var s := Nested(a, b, c, d);
    var j := 1 + |a|;
    assert s[1..j] == a;
    assert s[j] == ':';
    DigitsEndAt(s, 1, j);
    assert s[j + 1] == Open;
    DigitsEndAt(s, j + 1, j + 1);
  }

  /** A character at which no marker starts is kept, before any text. */
  lemma StripConsUnmatched(c: char, y: string)
    requires MatchAt([c] + y, 0).None?
    ensures Strip([c] + y) == [c] + Strip(y)
  {
    StripKeepsUnmatched([c] + y);
    assert ([c] + y)[1..] == y;
  }

  /** An unmatched position followed by plain text is kept with it. */
  lemma StripUnmatchedThenText(c: char, x: string, rest: string)
    requires MatchAt([c] + x + rest, 0).None? && NoOpen(x)
    ensures Strip([c] + x + rest) == [c] + x + Strip(rest)
  {
    assert [c] + x + rest == [c] + (x + rest);
    StripConsUnmatched(c, x + rest);
    StripKeepsPrefix(x, rest);
  }

  lemma StripNestedInner(b: string, c: string, d: string)
    requires IsNumber(b) && IsNumber(c) && IsNumber(d)
    ensures Strip(Marker(b, c) + (d + Tail)) == d + Tail
  {
    NumberNoOpen(d, Tail);
    StripLeadingMarker(b, c, d + Tail);
    StripKeepsPrefix(d + Tail, []);
    assert d + Tail + [] == d + Tail;
  }

  lemma StripNested(a: string, b: string, c: string, d: string)
    requires IsNumber(a) && IsNumber(b) && IsNumber(c) && IsNumber(d)
    ensures Strip(Nested(a, b, c, d)) == Marker(a, d)
  {
    var head := a + [':'];
    var inner := Marker(b, c) + (d + Tail);
    calc {
      Strip(Nested(a, b, c, d));
      { assert Nested(a, b, c, d) == [Open] + head + inner; }
      Strip([Open] + head + inner);
      { NestedNotMatchedAtStart(a, b, c, d);
        assert Nested(a, b, c, d) == [Open] + head + inner;
        NumberColon(a);
        StripUnmatchedThenText(Open, head, inner); }
      [Open] + head + Strip(inner);
      { StripNestedInner(b, c, d); }
      [Open] + head + (d + Tail);
      { assert [Open] + head + (d + Tail) == Marker(a, d); }
      Marker(a, d);
    }
  }

  lemma NumberColon(a: string)
    requires IsNumber(a)
    ensures NoOpen(a + [':'])
  {
    NumberNoOpen(a, [':']);
  }

  lemma NumberNoOpen(n: string, x: string)
    requires IsNumber(n) && NoOpen(x)
    ensures NoOpen(n + x)
  {
    forall k | 0 <= k < |n + x| ensures (n + x)[k] != Open {
      if k < |n| { assert (n + x)[k] == n[k]; } else { assert (n + x)[k] == x[k - |n|]; }
    }
  }

  /**
   * Stripping is not idempotent: deleting an inner marker can join the
   * text around it into a new marker, which a second pass then deletes.
   */
  lemma StripNotIdempotent(a: string, b: string, c: string, d: string)
    requires IsNumber(a) && IsNumber(b) && IsNumber(c) && IsNumber(d)
    ensures Strip(Nested(a, b, c, d)) == Marker(a, d)
    ensures Strip(Strip(Nested(a, b, c, d))) == []
  {
    StripNested(a, b, c, d);
    StripLeadingMarker(a, d, []);
    assert Marker(a, d) + [] == Marker(a, d);
  }

  /** The smallest instance: "【1:【2:3†source】4†source】" becomes "【1:4†source】". */
  lemma StripNotIdempotentExample()
    ensures Strip(Strip(Nested("1", "2", "3", "4"))) != Strip(Nested("1", "2", "3", "4"))
  {
    StripNotIdempotent("1", "2", "3", "4");
  }
}
