/** The string operations the core relies on, stated once: JavaScript's `indexOf`,
    `includes`, `startsWith` and `replace` with a string pattern, splitting a string on a
    separator character, and decimal rendering of a port number. */
module Text {

  datatype Option<T> = None | Some(value: T)

  /** `p` occurs in `s` starting at index `i`. */
  predicate OccursAt(s: string, p: string, i: nat)
  {
    i + |p| <= |s| && s[i..i + |p|] == p
  }

  /** `String.prototype.startsWith`. */
  predicate StartsWith(s: string, p: string)
  {
    |p| <= |s| && s[..|p|] == p
  }

  /** The first index at or after `from` where `p` occurs in `s`. */
  function IndexFrom(s: string, p: string, from: nat): (r: Option<nat>)
    requires from <= |s|
    ensures r.Some? ==> from <= r.value && OccursAt(s, p, r.value)
    ensures forall j :: from <= j && (r.None? || j < r.value) ==> !OccursAt(s, p, j)
    decreases |s| - from
  {
    if OccursAt(s, p, from) then Some(from)
    else if from == |s| then None
    else IndexFrom(s, p, from + 1)
  }

  /** `String.prototype.indexOf`: the first occurrence of `p` in `s`, if any. */
  function IndexOf(s: string, p: string): Option<nat>
  {
    IndexFrom(s, p, 0)
  }

  /** `String.prototype.includes`. */
  predicate Includes(s: string, p: string)
  {
    IndexOf(s, p).Some?
  }

  /** `includes` holds exactly when some occurrence exists. */
  lemma IncludesIff(s: string, p: string)
    ensures Includes(s, p) <==> exists i: nat :: OccursAt(s, p, i)
  {
  }

  /** The first index at or after `from` holding `c`, or `|s|` when there is none. */
  function IndexOfChar(s: string, c: char, from: nat): (k: nat)
    requires from <= |s|
    ensures from <= k <= |s|
    ensures k < |s| ==> s[k] == c
    ensures forall j :: from <= j < k ==> s[j] != c
    decreases |s| - from
  {
    if from == |s| || s[from] == c then from else IndexOfChar(s, c, from + 1)
  }

  /** The parts of a string between occurrences of `sep` (`s.split(sep)`). */
  function Split(s: string, sep: char): (parts: seq<string>)
    ensures |parts| >= 1
    ensures forall i :: 0 <= i < |parts| ==> sep !in parts[i]
    decreases |s|
  {
    var k := IndexOfChar(s, sep, 0);
    if k == |s| then [s] else [s[..k]] + Split(s[k + 1..], sep)
  }

  /** Joining the parts of a split gives back the string. */
  lemma {:induction false} JoinSplit(s: string, sep: char)
    ensures JoinWith(Split(s, sep), sep) == s
    decreases |s|
  {
    var k := IndexOfChar(s, sep, 0);
    if k < |s| {
      var rest := Split(s[k + 1..], sep);
      JoinSplit(s[k + 1..], sep);
      assert Split(s, sep) == [s[..k]] + rest;
      JoinWithCons(s[..k], rest, sep);
      assert s == s[..k] + [sep] + s[k + 1..];
    }
  }

  lemma JoinWithCons(x: string, rest: seq<string>, sep: char)
    requires |rest| >= 1
    ensures JoinWith([x] + rest, sep) == x + [sep] + JoinWith(rest, sep)
  {
    assert ([x] + rest)[1..] == rest;
  }

  /** `parts.join(sep)`. */
  function JoinWith(parts: seq<string>, sep: char): string
  {
    if |parts| == 0 then ""
    else if |parts| == 1 then parts[0]
    else parts[0] + [sep] + JoinWith(parts[1..], sep)
  }

  /** Joining two non-empty lists puts one separator between their joins. */
  lemma {:induction false} JoinWithAppend(a: seq<string>, b: seq<string>, sep: char)
    requires |a| >= 1 && |b| >= 1
    ensures JoinWith(a + b, sep) == JoinWith(a, sep) + [sep] + JoinWith(b, sep)
    decreases |a|
  {
    if |a| == 1 {
      assert (a + b)[1..] == b;
    } else {
      assert (a + b)[1..] == a[1..] + b;
      JoinWithAppend(a[1..], b, sep);
    }
  }

  /** Splitting undoes joining when no part holds the separator. */
  lemma {:induction false} SplitJoin(parts: seq<string>, sep: char)
    requires |parts| >= 1
    requires forall i :: 0 <= i < |parts| ==> sep !in parts[i]
    ensures Split(JoinWith(parts, sep), sep) == parts
    decreases |parts|
  {
    if |parts| == 1 {
      SplitNoSep(parts[0], sep);
    } else {
      var rest := JoinWith(parts[1..], sep);
      assert JoinWith(parts, sep) == parts[0] + [sep] + rest;
      SplitCons(parts[0], rest, sep);
      SplitJoin(parts[1..], sep);
      assert parts == [parts[0]] + parts[1..];
    }
  }

  /** A string without the separator is its own single part. */
  lemma SplitNoSep(x: string, sep: char)
    requires sep !in x
    ensures Split(x, sep) == [x]
  {
    assert IndexOfChar(x, sep, 0) == |x|;
  }

  /** Splitting at the first separator. */
  lemma SplitCons(x: string, y: string, sep: char)
    requires sep !in x
    ensures Split(x + [sep] + y, sep) == [x] + Split(y, sep)
  {
    var s := x + [sep] + y;
    assert s[|x|] == sep;
    assert forall j :: 0 <= j < |x| ==> s[j] == x[j];
    assert IndexOfChar(s, sep, 0) == |x|;
    assert s[..|x|] == x;
    assert s[|x| + 1..] == y;
  }

  /** Splitting at a separator splits each side separately. */
  lemma SplitConcat(a: string, b: string, sep: char)
    ensures Split(a + [sep] + b, sep) == Split(a, sep) + Split(b, sep)
  {
    var pa, pb := Split(a, sep), Split(b, sep);
    JoinSplit(a, sep);
    JoinSplit(b, sep);
    JoinWithAppend(pa, pb, sep);
    assert forall i :: 0 <= i < |pa + pb| ==> sep !in (pa + pb)[i];
    SplitJoin(pa + pb, sep);
  }

  /** The last part of `a + [sep] + b` is the last part of `b`. */
  lemma LastPartConcat(a: string, b: string, sep: char)
    ensures LastPart(a + [sep] + b, sep) == LastPart(b, sep)
  {
    SplitConcat(a, b, sep);
    var pa, pb := Split(a, sep), Split(b, sep);
    assert (pa + pb)[|pa + pb| - 1] == pb[|pb| - 1];
  }

  /** The text after the last `sep` (the match of `/[^/]*$/` for `sep == '/'`). */
  function LastPart(s: string, sep: char): (r: string)
    ensures sep !in r
  {
    var parts := Split(s, sep);
    parts[|parts| - 1]
  }

  /** `LastPart` is a suffix of `s` that is all of `s` or follows a separator. */
  lemma {:induction false} LastPartIsSuffix(s: string, sep: char)
    ensures |LastPart(s, sep)| <= |s|
    ensures s[|s| - |LastPart(s, sep)|..] == LastPart(s, sep)
    ensures |LastPart(s, sep)| < |s| ==> s[|s| - |LastPart(s, sep)| - 1] == sep
    decreases |s|
  {
    var k := IndexOfChar(s, sep, 0);
    if k < |s| {
      assert s == s[..k] + [sep] + s[k + 1..];
      assert LastPart(s, sep) == LastPart(s[k + 1..], sep);
      LastPartIsSuffix(s[k + 1..], sep);
    }
  }

  /** The replacement text that `String.prototype.replace` inserts for a string pattern
      (GetSubstitution with no capture groups): `$$`, `$&`, `` $` `` and `$'` are
      expanded, every other character is copied. */
  function Substitution(template: string, matched: string, before: string, after: string): string
    decreases |template|
  {
    if |template| == 0 then ""
    else if template[0] == '$' && |template| >= 2 && template[1] in "$&`'" then
      var piece := match template[1]
        case '$' => "$"
        case '&' => matched
        case '`' => before
        case _ => after;
      piece + Substitution(template[2..], matched, before, after)
    else
      [template[0]] + Substitution(template[1..], matched, before, after)
  }

  /** A template without `$` is inserted verbatim. */
  lemma {:induction false} SubstitutionPlain(template: string, matched: string, before: string, after: string)
    requires '$' !in template
    ensures Substitution(template, matched, before, after) == template
    decreases |template|
  {
    if |template| > 0 {
      assert '$' !in template[1..];
      SubstitutionPlain(template[1..], matched, before, after);
    }
  }

  /** `s.replace(pattern, replacement)` for a string `pattern`: only the first occurrence
      is replaced; without an occurrence `s` is returned unchanged. */
  function ReplaceFirst(s: string, pattern: string, replacement: string): (r: string)
    ensures IndexOf(s, pattern).None? ==> r == s
    ensures IndexOf(s, pattern).Some? && '$' !in replacement ==>
              var i := IndexOf(s, pattern).value;
              r == s[..i] + replacement + s[i + |pattern|..]
  {
    match IndexOf(s, pattern)
    case None => s
    case Some(i) =>
      var before, after := s[..i], s[i + |pattern|..];
      if '$' in replacement then
        before + Substitution(replacement, pattern, before, after) + after
      else
        SubstitutionPlain(replacement, pattern, before, after);
        before + Substitution(replacement, pattern, before, after) + after
  }

  /** A prefix is its own first occurrence. */
  lemma IndexOfPrefix(s: string, p: string)
    requires StartsWith(s, p)
    ensures IndexOf(s, p) == Some(0)
  {
    assert OccursAt(s, p, 0);
  }

  function Digit(d: nat): (c: char)
    requires d < 10
    ensures '0' <= c <= '9'
  {
    "0123456789"[d]
  }

  /** The value of a string of decimal digits. */
  function DecimalValue(s: string): nat
    requires forall i :: 0 <= i < |s| ==> '0' <= s[i] <= '9'
  {
    if s == [] then 0 else DecimalValue(s[..|s| - 1]) * 10 + (s[|s| - 1] as int - '0' as int)
  }

  /** A template-literal rendering of a natural number: decimal digits without a
      leading zero, whose value is the number. */
  function DecimalString(n: nat): (r: string)
    ensures |r| >= 1 && (r[0] == '0' ==> r == "0")
    ensures forall i :: 0 <= i < |r| ==> '0' <= r[i] <= '9'
    ensures DecimalValue(r) == n
  {
    if n < 10 then [Digit(n)]
    else
      var front := DecimalString(n / 10);
      DecimalAppend(front, n % 10);
      front + [Digit(n % 10)]
  }

  /** Appending a digit multiplies the value by ten and adds the digit. */
  lemma DecimalAppend(s: string, d: nat)
    requires d < 10
    requires forall i :: 0 <= i < |s| ==> '0' <= s[i] <= '9'
    ensures forall i :: 0 <= i < |s + [Digit(d)]| ==> '0' <= (s + [Digit(d)])[i] <= '9'
    ensures DecimalValue(s + [Digit(d)]) == DecimalValue(s) * 10 + d
  {
    var r := s + [Digit(d)];
    assert r[..|r| - 1] == s;
    assert "0123456789"[d] as int - '0' as int == d;
  }
}
