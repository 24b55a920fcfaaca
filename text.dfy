/** The few Python string operations the note cleaning uses:
    `str.strip()`, `str.split(sep)`, `sep.join(parts)`, and replacement of
    every leftmost non-overlapping occurrence of a set of literal patterns
    (`str.replace`, and `re.sub` with an alternation of literals). */
module Text {

  import opened Common

  /** Python's `str.isspace()`: the characters `str.strip()` removes. */
  predicate IsSpace(c: char)
  {
    || ('\t' <= c <= '\r')
    || ('\U{1C}' <= c <= ' ')
    || c == '\U{85}' || c == '\U{A0}' || c == '\U{1680}'
    || ('\U{2000}' <= c <= '\U{200A}')
    || c == '\U{2028}' || c == '\U{2029}' || c == '\U{202F}' || c == '\U{205F}' || c == '\U{3000}'
  }

  ghost predicate AllSpace(s: string)
  {
    forall k :: 0 <= k < |s| ==> IsSpace(s[k])
  }

  // ---------------------------------------------------------------------
  // strip

  /** The first position at or after `i` that holds no whitespace (`|s|`
      when there is none). */
  function SkipSpace(s: string, i: nat): (j: nat)
    requires i <= |s|
    ensures i <= j <= |s|
    ensures forall k :: i <= k < j ==> IsSpace(s[k])
    ensures j < |s| ==> !IsSpace(s[j])
    decreases |s| - i
  {
    if i == |s| || !IsSpace(s[i]) then i else SkipSpace(s, i + 1)
  }

  /** The end of `s[..j]` once the whitespace before `j`, down to `i`, is
      dropped. */
  function SkipSpaceBack(s: string, i: nat, j: nat): (e: nat)
    requires i <= j <= |s|
    ensures i <= e <= j
    ensures forall k :: e <= k < j ==> IsSpace(s[k])
    ensures e > i ==> !IsSpace(s[e - 1])
    decreases j
  {
    if j == i || !IsSpace(s[j - 1]) then j else SkipSpaceBack(s, i, j - 1)
  }

  /** Where the text `strip()` keeps begins and ends. */
  function StripStart(s: string): nat
  {
    SkipSpace(s, 0)
  }

  function StripEnd(s: string): nat
  {
    SkipSpaceBack(s, SkipSpace(s, 0), |s|)
  }

  /** `s.strip()`: neither starts nor ends with whitespace. */
  function Strip(s: string): (r: string)
    ensures |r| <= |s|
    ensures r == [] || (!IsSpace(r[0]) && !IsSpace(r[|r| - 1]))
  {
    s[StripStart(s)..StripEnd(s)]
  }

  /** `strip()` cuts off whitespace only, and all of it at both ends: what
      it keeps is the piece between the leading and the trailing
      whitespace. */
  lemma StripIsSlice(s: string)
    ensures var i, j := StripStart(s), StripEnd(s);
      && i <= j <= |s| && Strip(s) == s[i..j]
      && (forall k :: 0 <= k < i ==> IsSpace(s[k]))
      && (forall k :: j <= k < |s| ==> IsSpace(s[k]))
  {
  }

  /** `strip()` leaves nothing exactly when everything is whitespace. */
  lemma StripEmpty(s: string)
    ensures AllSpace(s) <==> Strip(s) == []
  {
    var i, j := StripStart(s), StripEnd(s);
    if !AllSpace(s) {
      var k :| 0 <= k < |s| && !IsSpace(s[k]);
      assert i <= k < j;
      assert Strip(s)[k - i] == s[k];
    }
  }

  // ---------------------------------------------------------------------
  // join and split

  /** `sep.join(parts)`. */
  function Join(parts: seq<string>, sep: string): string
  {
    if parts == [] then ""
    else if |parts| == 1 then parts[0]
    else parts[0] + sep + Join(parts[1..], sep)
  }

  /** The summed lengths of the pieces. */
  function TotalLength(parts: seq<string>): nat
  {
    if parts == [] then 0 else |parts[0]| + TotalLength(parts[1..])
  }

  /** A join of n pieces is as long as the pieces plus n - 1 separators,
      and begins with the first piece. */
  lemma {:induction false} JoinLength(parts: seq<string>, sep: string)
    requires parts != []
    ensures |Join(parts, sep)| == TotalLength(parts) + (|parts| - 1) * |sep|
    ensures Join(parts, sep)[..|parts[0]|] == parts[0]
  {
    if |parts| > 1 {
      JoinLength(parts[1..], sep);
      assert TotalLength(parts[1..]) == TotalLength(parts) - |parts[0]|;
    }
  }

  /** `s.split(sep)` for a one-character separator: never empty, no piece
      holds the separator, and joining the pieces gives `s` back. */
  function Split(s: string, sep: char): (parts: seq<string>)
    ensures |parts| >= 1
    ensures forall p :: p in parts ==> sep !in p
    ensures Join(parts, [sep]) == s
    decreases |s|
  {
    if s == [] then [""]
    else if s[0] == sep then
      var rest := Split(s[1..], sep);
      assert s == [sep] + s[1..];
      [""] + rest
    else
      var rest := Split(s[1..], sep);
      assert s == [s[0]] + s[1..];
      assert Join([[s[0]] + rest[0]] + rest[1..], [sep]) == [s[0]] + Join(rest, [sep]) by {
        if |rest| > 1 {
          assert ([[s[0]] + rest[0]] + rest[1..])[1..] == rest[1..];
        }
      }
      [[s[0]] + rest[0]] + rest[1..]
  }

  lemma {:induction false} SplitPrefix(a: string, b: string, sep: char)
    requires sep !in a
    ensures Split(a + [sep] + b, sep) == [a] + Split(b, sep)
    decreases |a|
  {
    if a == [] {
      assert a + [sep] + b == [sep] + b;
      assert ([sep] + b)[1..] == b;
    } else {
      var t := a + [sep] + b;
      SplitPrefix(a[1..], b, sep);
      assert t[0] == a[0] != sep;
      assert t[1..] == a[1..] + [sep] + b;
      var rest := Split(t[1..], sep);
      assert rest[0] == a[1..] && rest[1..] == Split(b, sep);
      assert Split(t, sep) == [[t[0]] + rest[0]] + rest[1..];
      assert [a[0]] + a[1..] == a;
    }
  }

  lemma {:induction false} SplitNone(a: string, sep: char)
    requires sep !in a
    ensures Split(a, sep) == [a]
    decreases |a|
  {
    if a != [] {
      SplitNone(a[1..], sep);
      assert [a[0]] + a[1..] == a;
    }
  }

  /** The other round trip: splitting a join of separator-free pieces gives
      the pieces back. */
  lemma {:induction false} SplitJoin(parts: seq<string>, sep: char)
    requires parts != []
    requires forall p :: p in parts ==> sep !in p
    ensures Split(Join(parts, [sep]), sep) == parts
  {
    if |parts| == 1 {
      SplitNone(parts[0], sep);
    } else {
      SplitJoin(parts[1..], sep);
      SplitPrefix(parts[0], Join(parts[1..], [sep]), sep);
      assert [parts[0]] + parts[1..] == parts;
    }
  }

  // ---------------------------------------------------------------------
  // replacement of literal patterns

  predicate IsPrefix(p: string, s: string)
  {
    |p| <= |s| && s[..|p|] == p
  }

  /** The first pattern (in the order given) that matches at the start of
      `s`: how a regular-expression alternation of literals chooses. */
  function FirstPrefix(s: string, pats: seq<string>): (r: Option<nat>)
    ensures r.Some? ==> r.value < |pats| && IsPrefix(pats[r.value], s)
    ensures r.Some? ==> forall k :: 0 <= k < r.value ==> !IsPrefix(pats[k], s)
    ensures r.None? ==> forall k :: 0 <= k < |pats| ==> !IsPrefix(pats[k], s)
  {
    if pats == [] then None
    else if IsPrefix(pats[0], s) then Some(0)
    else match FirstPrefix(s, pats[1..])
      case None => None
      case Some(k) => Some(k + 1)
  }

  /** Text without `<` is copied unchanged when every pattern begins with
      `<`: no pattern can match in it. */
  lemma {:induction false} ReplaceKeepsPlainText(s: string, pats: seq<string>, rep: string)
    requires AllOpenTags(pats)
    requires '<' !in s
    ensures ReplaceAll(s, pats, rep) == s
    decreases |s|
  {
    if s != [] {
      forall k | 0 <= k < |pats| ensures !IsPrefix(pats[k], s) {
        assert pats[k] in pats;
      }
      ReplaceKeepsPlainText(s[1..], pats, rep);
      assert s == [s[0]] + s[1..];
    }
  }

  /** Every pattern begins with `<`. */
  predicate AllOpenTags(pats: seq<string>)
  {
    forall p :: p in pats ==> p != [] && p[0] == '<'
  }

  /** Scans left to right; where one of `pats` matches, writes `rep` and
      continues after the match, otherwise copies one character. */
  function ReplaceAll(s: string, pats: seq<string>, rep: string): string
    requires forall p :: p in pats ==> p != []
    decreases |s|
  {
    if s == [] then []
    else match FirstPrefix(s, pats)
      case Some(k) =>
        assert pats[k] in pats;
        rep + ReplaceAll(s[|pats[k]|..], pats, rep)
      case None => [s[0]] + ReplaceAll(s[1..], pats, rep)
  }
}
