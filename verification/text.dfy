/**
  String operations the builder relies on, written with the JavaScript
  semantics the application uses: `+=` accumulation of chunks, `indexOf`,
  `includes`, first-occurrence `replace` with a string pattern, and
  `Array.prototype.join`.
 */
module Text {

  /** A value that may be missing (JavaScript `undefined`). */
  datatype Option<+T> = None | Some(value: T)

  /** The concatenation of `parts` in order: what repeated `buffer += part` builds. */
  function Concat(parts: seq<string>): string
  {
    if parts == [] then "" else Concat(parts[..|parts| - 1]) + parts[|parts| - 1]
  }

  /** Appending one more part appends its text. */
  lemma ConcatStep(parts: seq<string>, i: nat)
    requires i < |parts|
    ensures Concat(parts[..i + 1]) == Concat(parts[..i]) + parts[i]
  {
    assert parts[..i + 1][..i] == parts[..i];
  }

  /** Concatenation distributes over sequence append. */
  lemma {:induction false} ConcatAppend(a: seq<string>, b: seq<string>)
    ensures Concat(a + b) == Concat(a) + Concat(b)
    decreases |b|
  {
    if b == [] {
      assert a + b == a;
    } else {
      var b' := b[..|b| - 1];
      assert (a + b)[..|a + b| - 1] == a + b';
      ConcatAppend(a, b');
    }
  }

  /** `p` occurs in `s` at position `i`. */
  predicate Occurs(s: string, p: string, i: int)
  {
    0 <= i && i + |p| <= |s| && s[i..i + |p|] == p
  }

  /** First occurrence of `p` in `s` at or after `from`, or -1. */
  function IndexFrom(s: string, p: string, from: nat): (r: int)
    requires from <= |s|
    ensures r == -1 || (from <= r && Occurs(s, p, r))
    ensures forall j :: from <= j && (r == -1 || j < r) ==> !Occurs(s, p, j)
    decreases |s| - from
  {
    if from + |p| > |s| then -1
    else if s[from..from + |p|] == p then from
    else IndexFrom(s, p, from + 1)
  }

  /** JavaScript `s.indexOf(p)`: the first position at which `p` occurs in `s`,
      and -1 exactly when it occurs nowhere. */
  function IndexOf(s: string, p: string): (r: int)
    ensures r == -1 <==> forall j :: !Occurs(s, p, j)
    ensures r != -1 ==> Occurs(s, p, r) && forall j :: j < r ==> !Occurs(s, p, j)
  {
    IndexFrom(s, p, 0)
  }

  /** JavaScript `s.includes(p)`. */
  function Includes(s: string, p: string): (b: bool)
    ensures b <==> exists j :: Occurs(s, p, j)
  {
    IndexOf(s, p) != -1
  }

  /** When `p` occurs within the prefix `s`, the first occurrence in `s + t` is
      the first occurrence in `s`: appending text never moves it. */
  lemma IndexOfExtend(s: string, t: string, p: string)
    requires Includes(s, p)
    ensures IndexOf(s + t, p) == IndexOf(s, p)
  {
    var k := IndexOf(s, p);
    assert (s + t)[k..k + |p|] == s[k..k + |p|];
    assert Occurs(s + t, p, k);
    forall j | j < k
      ensures !Occurs(s + t, p, j)
    {
      if 0 <= j {
        assert (s + t)[j..j + |p|] == s[j..j + |p|];
        assert !Occurs(s, p, j);
      }
    }
  }

  /** A text that contains `p` keeps containing it when more text is appended. */
  lemma IncludesExtend(s: string, t: string, p: string)
    requires Includes(s, p)
    ensures Includes(s + t, p)
  {
    IndexOfExtend(s, t, p);
  }

  /** JavaScript `s.replace(p, r)` with a string pattern: the first occurrence
      of `p` is replaced by `r`; with no occurrence `s` is returned unchanged. */
  function ReplaceFirst(s: string, p: string, r: string): (t: string)
    ensures !Includes(s, p) ==> t == s
    ensures Includes(s, p) ==> |t| == |s| - |p| + |r|
  {
    var k := IndexOf(s, p);
    if k == -1 then s else s[..k] + r + s[k + |p|..]
  }

  /** The replacement is undone by putting `p` back where `r` was inserted:
      nothing outside the first occurrence is touched. */
  lemma ReplaceFirstUndo(s: string, p: string, r: string)
    requires Includes(s, p)
    ensures var k := IndexOf(s, p);
            var t := ReplaceFirst(s, p, r);
            t[..k] == s[..k] && t[k..k + |r|] == r && t[..k] + p + t[k + |r|..] == s
  {
    var k := IndexOf(s, p);
    var t := ReplaceFirst(s, p, r);
    assert t == s[..k] + r + s[k + |p|..];
    assert t[k + |r|..] == s[k + |p|..];
    assert s == s[..k] + s[k..k + |p|] + s[k + |p|..];
  }

  /** Growing the replacement by `more` only inserts `more` right after what
      was inserted before: the streamed snapshot grows in place. */
  lemma ReplaceFirstGrow(s: string, p: string, r: string, more: string)
    requires Includes(s, p)
    ensures var k := IndexOf(s, p);
            var t := ReplaceFirst(s, p, r);
            ReplaceFirst(s, p, r + more) == t[..k + |r|] + more + t[k + |r|..]
  {
    var k := IndexOf(s, p);
    var t := ReplaceFirst(s, p, r);
    assert t[..k + |r|] == s[..k] + r;
    assert t[k + |r|..] == s[k + |p|..];
  }

  /** JavaScript `parts.join(sep)`. */
  function Join(parts: seq<string>, sep: string): string
  {
    if parts == [] then ""
    else if |parts| == 1 then parts[0]
    else parts[0] + sep + Join(parts[1..], sep)
  }

  /** Joining a non-empty list with one more element at the end appends the
      separator and that element. */
  lemma {:induction false} JoinSnoc(parts: seq<string>, x: string, sep: string)
    requires parts != []
    ensures Join(parts + [x], sep) == Join(parts, sep) + sep + x
    decreases |parts|
  {
    if |parts| == 1 {
      assert (parts + [x])[1..] == [x];
    } else {
      assert (parts + [x])[1..] == parts[1..] + [x];
      JoinSnoc(parts[1..], x, sep);
    }
  }

  /** Decimal digit of `d`. */
  function DigitChar(d: nat): (c: char)
    requires d < 10
    ensures '0' <= c <= '9'
    ensures c as int - '0' as int == d
  {
    ('0' as int + d) as char
  }

  /** Decimal rendering of a natural number, as JavaScript's string conversion
      writes it: no sign, no leading zeros. */
  function NatToString(n: nat): (s: string)
    ensures |s| >= 1
    ensures forall i :: 0 <= i < |s| ==> '0' <= s[i] <= '9'
    ensures |s| > 1 ==> s[0] != '0'
    ensures NatFromString(s) == n
  {
    if n < 10 then [DigitChar(n)]
    else
      var s := NatToString(n / 10) + [DigitChar(n % 10)];
      assert s[..|s| - 1] == NatToString(n / 10);
      s
  }

  /** Reads back a string of decimal digits. */
  function NatFromString(s: string): nat
    requires forall i :: 0 <= i < |s| ==> '0' <= s[i] <= '9'
  {
    if s == [] then 0
    else 10 * NatFromString(s[..|s| - 1]) + (s[|s| - 1] as int - '0' as int)
  }
}
