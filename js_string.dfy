/** The string operations of the client code, on `seq<char>`: `trim`,
    `startsWith`, `includes`, number-to-text in template literals, and the
    `[BLANK]` marker of cloze passages (`match(/\[BLANK\]/g)` and
    `split(/\[BLANK\]/g)`). */
module JsString {
  import opened Common

  /** The characters `String.prototype.trim` removes: ECMAScript WhiteSpace
      (tab, vertical tab, form feed, no-break space, byte order mark and the
      Unicode space separators) and LineTerminator. */
  predicate IsSpace(c: char) {
    || c == ' ' || c == '\t' || c == '\n' || c == '\r'
    || c == '\U{000B}' || c == '\U{000C}' || c == '\U{00A0}' || c == '\U{FEFF}'
    || c == '\U{1680}' || ('\U{2000}' <= c <= '\U{200A}')
    || c == '\U{2028}' || c == '\U{2029}' || c == '\U{202F}' || c == '\U{205F}' || c == '\U{3000}'
  }

  /** The string is empty after trimming: `!s.trim()` is true. */
  predicate IsBlank(s: string) {
    forall i :: 0 <= i < |s| ==> IsSpace(s[i])
  }

  function TrimStart(s: string): (r: string)
    ensures |r| <= |s| && r == s[|s| - |r|..]
    ensures IsBlank(s[..|s| - |r|])
    ensures r == [] || !IsSpace(r[0])
  {
    if s == [] || !IsSpace(s[0]) then s else TrimStart(s[1..])
  }

  function TrimEnd(s: string): (r: string)
    ensures |r| <= |s| && r == s[..|r|]
    ensures IsBlank(s[|r|..])
    ensures r == [] || !IsSpace(r[|r| - 1])
  {
    if s == [] || !IsSpace(s[|s| - 1]) then s else TrimEnd(s[..|s| - 1])
  }

  /** `s.trim()`: a slice of `s` with no space at either end, empty exactly
      when `s` is blank. */
  function Trim(s: string): (r: string)
    ensures |r| <= |s|
    ensures r == [] || (!IsSpace(r[0]) && !IsSpace(r[|r| - 1]))
    ensures r == [] <==> IsBlank(s)
  {
    var t := TrimStart(s);
    var r := TrimEnd(t);
    TrimParts(s, t, r);
    r
  }

  lemma TrimParts(s: string, t: string, r: string)
    requires t == TrimStart(s) && r == TrimEnd(t)
    ensures r == [] ==> IsBlank(s)
    ensures r != [] ==> !IsSpace(r[0])
  {
    if r == [] {
      assert t[|r|..] == t;
      BlankSplit(s, |s| - |t|);
    } else {
      assert r[0] == t[0];
    }
  }

  lemma BlankSplit(s: string, k: nat)
    requires k <= |s| && IsBlank(s[..k]) && IsBlank(s[k..])
    ensures IsBlank(s)
  {
    forall i | 0 <= i < |s| ensures IsSpace(s[i]) {
      if i < k {
        assert s[i] == s[..k][i];
      } else {
        assert s[i] == s[k..][i - k];
      }
    }
  }

  /** `s.startsWith(p)`. */
  predicate StartsWith(s: string, p: string) {
    |p| <= |s| && s[..|p|] == p
  }

  /** `s.includes(p)`. */
  predicate Includes(s: string, p: string) {
    exists i :: 0 <= i <= |s| - |p| && OccursAt(s, p, i)
  }

  /** `p` occurs in `s` starting at index `i`. */
  predicate OccursAt(s: string, p: string, i: nat)
    requires i + |p| <= |s|
  {
    s[i..i + |p|] == p
  }

  /** A decimal digit. */
  function Digit(d: nat): (c: char)
    requires d < 10
    ensures '0' <= c <= '9'
  {
    (48 + d) as char
  }

  /** `${n}` for a non-negative integer: its decimal digits, no leading zero. */
  function NatToString(n: nat): (r: string)
    ensures |r| >= 1
    ensures n < 10 <==> |r| == 1
    ensures forall i :: 0 <= i < |r| ==> '0' <= r[i] <= '9'
  {
    if n < 10 then [Digit(n)] else NatToString(n / 10) + [Digit(n % 10)]
  }

  /** Distinct numbers have distinct decimal texts. */
  lemma {:induction false} NatToStringInjective(a: nat, b: nat)
    requires NatToString(a) == NatToString(b)
    ensures a == b
  {
    if a >= 10 && b >= 10 {
      var sa, sb := NatToString(a), NatToString(b);
      assert sa[..|sa| - 1] == NatToString(a / 10);
      assert sb[..|sb| - 1] == NatToString(b / 10);
      NatToStringInjective(a / 10, b / 10);
      assert Digit(a % 10) == sa[|sa| - 1] == sb[|sb| - 1] == Digit(b % 10);
    }
  }

  /** Every character is a decimal digit. */
  predicate AllDigits(s: string) {
    forall i :: 0 <= i < |s| ==> '0' <= s[i] <= '9'
  }

  /** The number a string of decimal digits denotes. */
  function DecimalValue(s: string): nat
    requires AllDigits(s)
  {
    if s == [] then 0 else DecimalValue(s[..|s| - 1]) * 10 + (s[|s| - 1] as int - 48)
  }

  lemma {:induction false} DecimalValuePositive(s: string)
    requires AllDigits(s) && |s| >= 1 && s[0] != '0'
    ensures DecimalValue(s) >= 1
  {
    if |s| > 1 {
      DecimalValuePositive(s[..|s| - 1]);
    }
  }

  /** The array index a property key denotes, as JavaScript reads `a[key]`
      on an array or a string: only the canonical decimal text of a number
      (no sign, no leading zero) is an index. */
  function ParseIndex(key: string): (r: Option<nat>)
    ensures r.Some? ==> NatToString(r.value) == key
  {
    if |key| >= 1 && AllDigits(key) && (|key| == 1 || key[0] != '0') then
      ParseIndexSound(key);
      Some(DecimalValue(key))
    else None
  }

  lemma {:induction false} ParseIndexSound(key: string)
    requires |key| >= 1 && AllDigits(key) && (|key| == 1 || key[0] != '0')
    ensures NatToString(DecimalValue(key)) == key
  {
    if |key| > 1 {
      var p := key[..|key| - 1];
      DecimalValuePositive(p);
      ParseIndexSound(p);
      var n := DecimalValue(key);
      assert n / 10 == DecimalValue(p) && n % 10 == key[|key| - 1] as int - 48;
      assert key == p + [key[|key| - 1]];
    }
  }

  /** Every number's text is read back as that number. */
  lemma {:induction false} ParseNatToString(n: nat)
    ensures ParseIndex(NatToString(n)) == Some(n)
  {
    var s := NatToString(n);
    if n >= 10 {
      ParseNatToString(n / 10);
      assert s[..|s| - 1] == NatToString(n / 10);
      assert s[0] == NatToString(n / 10)[0];
    }
    assert ParseIndex(s).Some?;
    NatToStringInjective(ParseIndex(s).value, n);
  }

  /** The marker a cloze passage uses for one blank. */
  const Marker: string := "[BLANK]"

  /** Number of markers found by a global left-to-right search:
      `(s.match(/\[BLANK\]/g) || []).length`. */
  function CountMarkers(s: string): nat
    decreases |s|
  {
    if s == [] then 0
    else if StartsWith(s, Marker) then 1 + CountMarkers(s[|Marker|..])
    else CountMarkers(s[1..])
  }

  lemma {:induction false} ShortHasNoMarker(s: string)
    requires |s| < |Marker|
    ensures CountMarkers(s) == 0
  {
    if s != [] {
      ShortHasNoMarker(s[1..]);
    }
  }

  /** A text without an opening bracket holds no marker. */
  lemma {:induction false} NoBracketNoMarker(s: string)
    requires '[' !in s
    ensures CountMarkers(s) == 0
  {
    if s != [] {
      assert s[0] != Marker[0];
      NoBracketNoMarker(s[1..]);
    }
  }

  /** Replacing a selection by one marker adds exactly one blank: the marker
      cannot overlap another occurrence of itself, so the blanks of `a` and
      of `b` are all still found. */
  lemma {:induction false} CountAroundMarker(a: string, b: string)
    ensures CountMarkers(a + Marker + b) == CountMarkers(a) + 1 + CountMarkers(b)
  {
    var s := a + Marker + b;
    if a == [] {
      assert s == Marker + b;
      assert StartsWith(s, Marker);
      assert s[|Marker|..] == b;
    } else if |a| < |Marker| {
      assert s[|a|] == '[';
      assert Marker[|a|] != '[';
      assert !StartsWith(s, Marker);
      assert s[1..] == a[1..] + Marker + b;
      CountAroundMarker(a[1..], b);
      ShortHasNoMarker(a);
      ShortHasNoMarker(a[1..]);
    } else {
      assert s[..|Marker|] == a[..|Marker|];
      if StartsWith(a, Marker) {
        assert s[|Marker|..] == a[|Marker|..] + Marker + b;
        CountAroundMarker(a[|Marker|..], b);
      } else {
        assert s[1..] == a[1..] + Marker + b;
        CountAroundMarker(a[1..], b);
      }
    }
  }

  /** `includes('[BLANK]')` holds exactly when at least one marker is counted. */
  lemma {:induction false} IncludesMarker(s: string)
    ensures Includes(s, Marker) <==> CountMarkers(s) > 0
  {
    if s == [] {
    } else if StartsWith(s, Marker) {
      assert OccursAt(s, Marker, 0);
    } else {
      IncludesMarker(s[1..]);
      if Includes(s, Marker) {
        var i :| 0 <= i <= |s| - |Marker| && OccursAt(s, Marker, i);
        assert i != 0;
        OccursShift(s, i);
      }
      if Includes(s[1..], Marker) {
        var i :| 0 <= i <= |s| - 1 - |Marker| && OccursAt(s[1..], Marker, i);
        OccursShift(s, i + 1);
      }
    }
  }

  /** An occurrence at `i > 0` is one at `i - 1` of the rest of the text. */
  lemma OccursShift(s: string, i: nat)
    requires 1 <= i && i + |Marker| <= |s|
    ensures OccursAt(s, Marker, i) <==> OccursAt(s[1..], Marker, i - 1)
  {
    assert s[1..][i - 1..i - 1 + |Marker|] == s[i..i + |Marker|];
  }

  /** `s.split(/\[BLANK\]/g)`, with `cur` the text of the part being read. */
  function SplitFrom(s: string, cur: string): (parts: seq<string>)
    decreases |s|
  {
    if s == [] then [cur]
    else if StartsWith(s, Marker) then [cur] + SplitFrom(s[|Marker|..], [])
    else SplitFrom(s[1..], cur + [s[0]])
  }

  /** The parts of a cloze passage around its blanks. */
  function SplitAtMarkers(s: string): seq<string> {
    SplitFrom(s, [])
  }

  /** `parts.join(sep)` for a non-empty list. */
  function Join(parts: seq<string>, sep: string): string
    requires |parts| > 0
  {
    if |parts| == 1 then parts[0] else parts[0] + sep + Join(parts[1..], sep)
  }

  lemma {:induction false} SplitFromLength(s: string, cur: string)
    ensures |SplitFrom(s, cur)| == CountMarkers(s) + 1
    decreases |s|
  {
    if s == [] {
    } else if StartsWith(s, Marker) {
      SplitFromLength(s[|Marker|..], []);
    } else {
      SplitFromLength(s[1..], cur + [s[0]]);
    }
  }

  lemma {:induction false} SplitFromJoin(s: string, cur: string)
    ensures |SplitFrom(s, cur)| > 0
    ensures Join(SplitFrom(s, cur), Marker) == cur + s
    decreases |s|
  {
    if s == [] {
    } else if StartsWith(s, Marker) {
      SplitFromJoin(s[|Marker|..], []);
      assert s == Marker + s[|Marker|..];
    } else {
      SplitFromJoin(s[1..], cur + [s[0]]);
      assert cur + [s[0]] + s[1..] == cur + s;
    }
  }

  /** The passage splits into one more part than it has blanks, and joining
      the parts back with the marker gives the passage again. */
  lemma SplitAtMarkersSpec(s: string)
    ensures |SplitAtMarkers(s)| == CountMarkers(s) + 1
    ensures Join(SplitAtMarkers(s), Marker) == s
  {
    SplitFromLength(s, []);
    SplitFromJoin(s, []);
  }
}
