/**
 * Character classes and the pieces of Python's `str` and `re` that the
 * application uses: `strip`, `split` on one separator, `join`, filtering,
 * substitution of every maximal run of a character class (`re.sub(C + "+", x, s)`)
 * and decimal rendering of a natural number (`f"{n}"`).
 */
module Text {

  /** The characters for which Python's `str.isspace()` holds. */
  const SpaceChars: set<char> := {
    '\t', '\n', '\U{0B}', '\U{0C}', '\r', '\U{1C}', '\U{1D}', '\U{1E}', '\U{1F}', ' ',
    '\U{85}', '\U{A0}', '\U{1680}',
    '\U{2000}', '\U{2001}', '\U{2002}', '\U{2003}', '\U{2004}', '\U{2005}',
    '\U{2006}', '\U{2007}', '\U{2008}', '\U{2009}', '\U{200A}',
    '\U{2028}', '\U{2029}', '\U{202F}', '\U{205F}', '\U{3000}'
  }

  /** Python's `str.isspace()`: the class matched by `\s` and removed by `str.strip()`. */
  predicate IsSpace(c: char) {
    c in SpaceChars
  }

  predicate IsAsciiAlnum(c: char) {
    'a' <= c <= 'z' || 'A' <= c <= 'Z' || '0' <= c <= '9'
  }

  /**
   * Common punctuation and symbols outside ASCII that `\w` does not match:
   * Latin typography, CJK and fullwidth punctuation, the Arabic comma,
   * semicolon and question mark, and the Devanagari dandas.
   */
  predicate IsNonAsciiPunctuation(c: char) {
    || c in "…–—‘’“”«»¡¿·•→€£§°©®™"
    || c in "。、，．！？：；（）「」『』【】《》〈〉"
    || c in "\U{060C}\U{061B}\U{061F}\U{0964}\U{0965}"
  }

  /**
   * Python's `\w` on `str`: exact on ASCII (letters, digits and `_`); outside
   * ASCII every character that is neither whitespace nor listed punctuation.
   */
  predicate IsWord(c: char) {
    if c <= '\U{7F}' then IsAsciiAlnum(c) || c == '_'
    else !IsSpace(c) && !IsNonAsciiPunctuation(c)
  }

  predicate IsDash(c: char) {
    c == '-'
  }

  /** Python's `\w` and `\s` never match the same character, and neither matches `-`. */
  lemma WordIsNotSpace(c: char)
    ensures IsWord(c) ==> !IsSpace(c)
    ensures !IsWord('-') && !IsSpace('-')
  {
  }

  /** True when no two neighbouring characters of `s` both satisfy `p`. */
  predicate NoAdjacent(s: string, p: char -> bool) {
    forall i, j :: 0 <= i < |s| && 0 <= j < |s| && j == i + 1 ==> !(p(s[i]) && p(s[j]))
  }

  /** The only whitespace `s` contains is the plain space. */
  predicate OnlyPlainSpaces(s: string) {
    forall i :: 0 <= i < |s| ==> IsSpace(s[i]) ==> s[i] == ' '
  }

  /** `s` with every leading character satisfying `p` removed. */
  function TrimLeft(s: string, p: char -> bool): (r: string)
    ensures |r| <= |s| && r == s[|s| - |r|..]
    ensures r == [] || !p(r[0])
  {
    if s != [] && p(s[0]) then TrimLeft(s[1..], p) else s
  }

  /** Only characters satisfying `p` are trimmed from the left. */
  lemma {:induction false} TrimLeftRemoves(s: string, p: char -> bool)
    ensures forall i :: 0 <= i < |s| - |TrimLeft(s, p)| ==> p(s[i])
  {
    if s != [] && p(s[0]) {
      TrimLeftRemoves(s[1..], p);
      assert forall i :: 1 <= i < |s| ==> s[i] == s[1..][i - 1];
    }
  }

  /** `s` with every trailing character satisfying `p` removed. */
  function TrimRight(s: string, p: char -> bool): (r: string)
    ensures |r| <= |s| && r == s[..|r|]
    ensures r == [] || !p(r[|r| - 1])
  {
    if s != [] && p(s[|s| - 1]) then TrimRight(s[..|s| - 1], p) else s
  }

  /** Only characters satisfying `p` are trimmed from the right. */
  lemma {:induction false} TrimRightRemoves(s: string, p: char -> bool)
    ensures forall i :: |TrimRight(s, p)| <= i < |s| ==> p(s[i])
  {
    if s != [] && p(s[|s| - 1]) {
      TrimRightRemoves(s[..|s| - 1], p);
    }
  }

  /** Python's `s.strip(chars)` for the class `p`: trims both ends. */
  function Trim(s: string, p: char -> bool): (r: string)
    ensures r == [] || (!p(r[0]) && !p(r[|r| - 1]))
  {
    TrimRight(TrimLeft(s, p), p)
  }

  /** Trimming returns a contiguous slice of its input. */
  lemma TrimSlice(s: string, p: char -> bool) returns (a: nat, b: nat)
    ensures a <= b <= |s| && Trim(s, p) == s[a..b]
  {
    var l := TrimLeft(s, p);
    a := |s| - |l|;
    b := a + |TrimRight(l, p)|;
    assert Trim(s, p) == l[..b - a];
  }

  lemma NoAdjacentSlice(s: string, p: char -> bool, a: nat, b: nat)
    requires NoAdjacent(s, p)
    requires a <= b <= |s|
    ensures NoAdjacent(s[a..b], p)
  {
    var t := s[a..b];
    forall i, j | 0 <= i < |t| && 0 <= j < |t| && j == i + 1 ensures !(p(t[i]) && p(t[j])) {
      assert t[i] == s[a + i] && t[j] == s[a + j];
    }
  }

  /** Appending a character outside the class keeps neighbours apart. */
  lemma NoAdjacentSnoc(s: string, p: char -> bool, x: char)
    requires NoAdjacent(s, p) && !p(x)
    ensures NoAdjacent(s + [x], p)
  {
    var t := s + [x];
    forall i, j | 0 <= i < |t| && 0 <= j < |t| && j == i + 1 ensures !(p(t[i]) && p(t[j])) {
      if j < |s| {
        assert t[i] == s[i] && t[j] == s[j];
      }
    }
  }

  lemma OnlyPlainSpacesSlice(s: string, a: nat, b: nat)
    requires OnlyPlainSpaces(s)
    requires a <= b <= |s|
    ensures OnlyPlainSpaces(s[a..b])
  {
    var t := s[a..b];
    forall i | 0 <= i < |t| ensures IsSpace(t[i]) ==> t[i] == ' ' {
      assert t[i] == s[a + i];
    }
  }

  lemma NotInSlice(s: string, c: char, a: nat, b: nat)
    requires c !in s
    requires a <= b <= |s|
    ensures c !in s[a..b]
  {
  }

  /** Trimming leaves nothing exactly when every character satisfies `p`. */
  lemma TrimEmpty(s: string, p: char -> bool)
    ensures Trim(s, p) == [] <==> forall i :: 0 <= i < |s| ==> p(s[i])
  {
    var l := TrimLeft(s, p);
    TrimLeftRemoves(s, p);
    TrimRightRemoves(l, p);
    if Trim(s, p) == [] {
      assert l == [];
    }
  }

  /** Python's `s.strip()`. */
  function Strip(s: string): string {
    Trim(s, IsSpace)
  }

  /** Python's `s.rstrip()`. */
  function RStrip(s: string): string {
    TrimRight(s, IsSpace)
  }

  /** True when `s` has no whitespace at either end, i.e. `s.strip() == s`. */
  predicate IsStripped(s: string) {
    s == [] || (!IsSpace(s[0]) && !IsSpace(s[|s| - 1]))
  }

  lemma {:induction false} TrimLeftNoop(s: string, p: char -> bool)
    requires s == [] || !p(s[0])
    ensures TrimLeft(s, p) == s
  {
  }

  lemma {:induction false} TrimRightNoop(s: string, p: char -> bool)
    requires s == [] || !p(s[|s| - 1])
    ensures TrimRight(s, p) == s
  {
  }

  /** Trimming a string whose ends are already clean changes nothing. */
  lemma TrimNoop(s: string, p: char -> bool)
    requires s == [] || (!p(s[0]) && !p(s[|s| - 1]))
    ensures Trim(s, p) == s
  {
    TrimLeftNoop(s, p);
    TrimRightNoop(s, p);
  }

  /** Python's `s.strip()` leaves no whitespace at either end. */
  lemma StripStripped(s: string)
    ensures IsStripped(Strip(s))
  {
    var r := Trim(s, IsSpace);
    assert r == [] || (!IsSpace(r[0]) && !IsSpace(r[|r| - 1]));
  }

  /** Stripping a stripped string changes nothing. */
  lemma StrippedNoop(s: string)
    requires IsStripped(s)
    ensures Strip(s) == s
  {
    TrimNoop(s, IsSpace);
  }

  /** Python's `s.strip()` is idempotent. */
  lemma StripIdempotent(s: string)
    ensures Strip(Strip(s)) == Strip(s)
  {
    TrimNoop(Strip(s), IsSpace);
  }

  /** The characters of `s` that satisfy `q`, in order. */
  function Keep(s: string, q: char -> bool): (r: string)
    ensures |r| <= |s|
  {
    if s == [] then [] else (if q(s[0]) then [s[0]] else []) + Keep(s[1..], q)
  }

  lemma {:induction false} KeepConcat(a: string, b: string, q: char -> bool)
    ensures Keep(a + b, q) == Keep(a, q) + Keep(b, q)
  {
    if a != [] {
      assert (a + b)[0] == a[0];
      assert (a + b)[1..] == a[1..] + b;
      KeepConcat(a[1..], b, q);
    } else {
      assert a + b == b;
    }
  }

  lemma {:induction false} KeepNone(s: string, q: char -> bool)
    requires forall i :: 0 <= i < |s| ==> !q(s[i])
    ensures Keep(s, q) == []
  {
    if s != [] {
      KeepNone(s[1..], q);
    }
  }

  /** Keeping finds nothing exactly when no character satisfies `q`. */
  lemma {:induction false} KeepEmpty(s: string, q: char -> bool)
    ensures Keep(s, q) == [] <==> forall i :: 0 <= i < |s| ==> !q(s[i])
  {
    if s != [] {
      KeepEmpty(s[1..], q);
      assert forall i :: 1 <= i < |s| ==> s[i] == s[1..][i - 1];
    }
  }

  /** Every character of `s` satisfies `q`. */
  predicate All(s: string, q: char -> bool) {
    forall i :: 0 <= i < |s| ==> q(s[i])
  }

  lemma AllSlice(s: string, q: char -> bool, a: nat, b: nat)
    requires All(s, q)
    requires a <= b <= |s|
    ensures All(s[a..b], q)
  {
    var t := s[a..b];
    forall i | 0 <= i < |t| ensures q(t[i]) {
      assert t[i] == s[a + i];
    }
  }

  /** No character satisfies both `p` and `q`. */
  predicate Disjoint(p: char -> bool, q: char -> bool) {
    forall c :: !(p(c) && q(c))
  }

  /** Trimming characters outside `q` leaves the `q`-characters untouched. */
  lemma TrimKeep(s: string, p: char -> bool, q: char -> bool)
    requires Disjoint(p, q)
    ensures Keep(Trim(s, p), q) == Keep(s, q)
  {
    TrimLeftKeep(s, p, q);
    TrimRightKeep(TrimLeft(s, p), p, q);
  }

  lemma {:induction false} TrimLeftKeep(s: string, p: char -> bool, q: char -> bool)
    requires Disjoint(p, q)
    ensures Keep(TrimLeft(s, p), q) == Keep(s, q)
  {
    if s != [] && p(s[0]) {
      TrimLeftKeep(s[1..], p, q);
    }
  }

  lemma {:induction false} TrimRightKeep(s: string, p: char -> bool, q: char -> bool)
    requires Disjoint(p, q)
    ensures Keep(TrimRight(s, p), q) == Keep(s, q)
  {
    if s != [] && p(s[|s| - 1]) {
      var init := s[..|s| - 1];
      TrimRightKeep(init, p, q);
      assert s == init + [s[|s| - 1]];
      KeepConcat(init, [s[|s| - 1]], q);
      assert [s[|s| - 1]][1..] == [];
    }
  }

  /**
   * Python's `re.sub(C + "+", rep, s)` for the class `p`: every maximal run of
   * characters satisfying `p` becomes the one character `rep`. `inRun` says that
   * the character before `s` belonged to a run already replaced.
   */
  function SubRuns(s: string, p: char -> bool, rep: char, inRun: bool): (r: string)
    ensures |r| <= |s|
  {
    if s == [] then []
    else if !p(s[0]) then [s[0]] + SubRuns(s[1..], p, rep, false)
    else if inRun then SubRuns(s[1..], p, rep, true)
    else [rep] + SubRuns(s[1..], p, rep, true)
  }

  /** The only class member the substitution writes is `rep` itself. */
  lemma {:induction false} SubRunsOnlyRep(s: string, p: char -> bool, rep: char, inRun: bool)
    ensures forall i :: 0 <= i < |SubRuns(s, p, rep, inRun)| ==> p(SubRuns(s, p, rep, inRun)[i]) ==> SubRuns(s, p, rep, inRun)[i] == rep
  {
    if s != [] {
      SubRunsOnlyRep(s[1..], p, rep, false);
      SubRunsOnlyRep(s[1..], p, rep, true);
    }
  }

  /** A property every input character and `rep` have holds of every output character. */
  lemma {:induction false} SubRunsAll(s: string, p: char -> bool, rep: char, inRun: bool, q: char -> bool)
    requires All(s, q) && q(rep)
    ensures All(SubRuns(s, p, rep, inRun), q)
  {
    if s != [] {
      assert All(s[1..], q);
      SubRunsAll(s[1..], p, rep, false, q);
      SubRunsAll(s[1..], p, rep, true, q);
    }
  }

  /** The substitution introduces no character other than `rep`. */
  lemma {:induction false} SubRunsNotIn(s: string, p: char -> bool, rep: char, inRun: bool, c: char)
    requires c !in s && c != rep
    ensures c !in SubRuns(s, p, rep, inRun)
  {
    if s != [] {
      assert c !in s[1..];
      SubRunsNotIn(s[1..], p, rep, false, c);
      SubRunsNotIn(s[1..], p, rep, true, c);
    }
  }

  /** After the substitution no two neighbouring characters satisfy `p`. */
  lemma {:induction false} SubRunsNoAdjacent(s: string, p: char -> bool, rep: char, inRun: bool)
    requires p(rep)
    ensures NoAdjacent(SubRuns(s, p, rep, inRun), p)
    ensures inRun ==> SubRuns(s, p, rep, inRun) == [] || !p(SubRuns(s, p, rep, inRun)[0])
  {
    if s != [] {
      if !p(s[0]) {
        SubRunsNoAdjacent(s[1..], p, rep, false);
      } else {
        SubRunsNoAdjacent(s[1..], p, rep, true);
      }
    }
  }

  /** The substitution is the identity on a string it would not change. */
  lemma {:induction false} SubRunsNoop(s: string, p: char -> bool, rep: char, inRun: bool)
    requires forall i :: 0 <= i < |s| ==> p(s[i]) ==> s[i] == rep
    requires NoAdjacent(s, p)
    requires inRun ==> s == [] || !p(s[0])
    ensures SubRuns(s, p, rep, inRun) == s
  {
    if s != [] {
      assert NoAdjacent(s[1..], p);
      SubRunsNoop(s[1..], p, rep, p(s[0]));
    }
  }

  /** The substitution keeps every character of a class disjoint from `p` and `rep`. */
  lemma {:induction false} SubRunsKeep(s: string, p: char -> bool, rep: char, inRun: bool, q: char -> bool)
    requires Disjoint(p, q)
    requires !q(rep)
    ensures Keep(SubRuns(s, p, rep, inRun), q) == Keep(s, q)
  {
    if s != [] {
      var t := s[1..];
      var rt := SubRuns(t, p, rep, p(s[0]));
      SubRunsKeep(t, p, rep, p(s[0]), q);
      assert Keep(s, q) == (if q(s[0]) then [s[0]] else []) + Keep(t, q);
      if !p(s[0]) {
        assert SubRuns(s, p, rep, inRun) == [s[0]] + rt;
        KeepConcat([s[0]], rt, q);
      } else if inRun {
        assert SubRuns(s, p, rep, inRun) == rt;
      } else {
        assert SubRuns(s, p, rep, inRun) == [rep] + rt;
        KeepConcat([rep], rt, q);
      }
    }
  }

  /** Python's `s.split(sep)` for a one-character separator. */
  function Split(s: string, sep: char): (r: seq<string>)
    ensures |r| >= 1
  {
    if s == [] then [[]]
    else
      var rest := Split(s[1..], sep);
      if s[0] == sep then [[]] + rest else [[s[0]] + rest[0]] + rest[1..]
  }

  /** No piece of a split contains the separator. */
  lemma {:induction false} SplitPieces(s: string, sep: char)
    ensures forall i :: 0 <= i < |Split(s, sep)| ==> sep !in Split(s, sep)[i]
  {
    if s != [] {
      SplitPieces(s[1..], sep);
    }
  }

  /** Python's `sep.join(xs)`. */
  function Join(xs: seq<string>, sep: string): string {
    if |xs| == 0 then []
    else if |xs| == 1 then xs[0]
    else xs[0] + sep + Join(xs[1..], sep)
  }

  lemma {:induction false} SplitNoSeparator(s: string, sep: char)
    requires sep !in s
    ensures Split(s, sep) == [s]
  {
    if s != [] {
      SplitNoSeparator(s[1..], sep);
      assert [s[0]] + s[1..] == s;
    }
  }

  /** Splitting distributes over a separator occurrence. */
  lemma {:induction false} SplitConcat(a: string, b: string, sep: char)
    ensures Split(a + [sep] + b, sep) == Split(a, sep) + Split(b, sep)
  {
    if a == [] {
      assert (a + [sep] + b)[1..] == b;
    } else {
      assert (a + [sep] + b)[1..] == a[1..] + [sep] + b;
      SplitConcat(a[1..], b, sep);
    }
  }

  /** Joining the pieces of a split with the separator restores the string. */
  lemma {:induction false} JoinSplit(s: string, sep: char)
    ensures Join(Split(s, sep), [sep]) == s
  {
    if s != [] {
      JoinSplit(s[1..], sep);
      var rest := Split(s[1..], sep);
      if s[0] != sep && |rest| > 1 {
        assert Join(rest, [sep]) == rest[0] + [sep] + Join(rest[1..], [sep]);
      }
    }
  }

  /** Splitting a join of separator-free pieces returns the pieces. */
  lemma {:induction false} SplitJoin(xs: seq<string>, sep: char)
    requires |xs| >= 1
    requires forall i :: 0 <= i < |xs| ==> sep !in xs[i]
    ensures Split(Join(xs, [sep]), sep) == xs
  {
    if |xs| == 1 {
      SplitNoSeparator(xs[0], sep);
    } else {
      SplitJoin(xs[1..], sep);
      SplitNoSeparator(xs[0], sep);
      SplitConcat(xs[0], Join(xs[1..], [sep]), sep);
    }
  }

  predicate IsDigit(c: char) {
    '0' <= c <= '9'
  }

  function DigitChar(d: nat): (c: char)
    requires d < 10
    ensures IsDigit(c)
  {
    ('0' as int + d) as char
  }

  function DigitValue(c: char): (d: nat)
    requires IsDigit(c)
    ensures d < 10 && DigitChar(d) == c
  {
    (c as int - '0' as int) as nat
  }

  /** Python's `str(n)` for a natural number: its decimal digits. */
  function Decimal(n: nat): (r: string)
    ensures |r| >= 1
    ensures forall i :: 0 <= i < |r| ==> IsDigit(r[i])
  {
    if n < 10 then [DigitChar(n)] else Decimal(n / 10) + [DigitChar(n % 10)]
  }

  /** The number a string of decimal digits denotes. */
  function ParseDecimal(s: string): nat
    requires forall i :: 0 <= i < |s| ==> IsDigit(s[i])
  {
    if s == [] then 0 else 10 * ParseDecimal(s[..|s| - 1]) + DigitValue(s[|s| - 1])
  }

  lemma DecimalSplit(n: nat)
    requires n >= 10
    ensures var r := Decimal(n); r[..|r| - 1] == Decimal(n / 10) && r[|r| - 1] == DigitChar(n % 10)
  {
    var a := Decimal(n / 10);
    assert (a + [DigitChar(n % 10)])[..|a|] == a;
  }

  lemma {:induction false} DecimalRoundTrip(n: nat)
    ensures ParseDecimal(Decimal(n)) == n
  {
    var r := Decimal(n);
    if n < 10 {
      assert r[..0] == [];
    } else {
      DecimalRoundTrip(n / 10);
      DecimalSplit(n);
      assert DigitValue(r[|r| - 1]) == n % 10;
    }
  }

  /** Distinct numbers have distinct decimal renderings. */
  lemma DecimalInjective(m: nat, n: nat)
    requires Decimal(m) == Decimal(n)
    ensures m == n
  {
    DecimalRoundTrip(m);
    DecimalRoundTrip(n);
  }
}
