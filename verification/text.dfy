/** String helpers with Python's meaning: ASCII lowercasing, `startswith`, `in` on strings,
    decimal rendering of integers and newline-terminated lines. */
module Text {

  /** The ASCII letters in alphabetical order, upper and lower case. */
  const UpperLetters: string := "ABCDEFGHIJKLMNOPQRSTUVWXYZ"
  const LowerLetters: string := "abcdefghijklmnopqrstuvwxyz"

  /** Python's `str.lower()` on one character, restricted to ASCII: an upper-case letter becomes
      the lower-case letter at the same place in the alphabet, every other character is kept. */
  function LowerChar(c: char): (r: char)
    ensures 'A' <= c <= 'Z' ==> r == LowerLetters[c as int - 'A' as int]
    ensures !('A' <= c <= 'Z') ==> r == c
    ensures !('A' <= r <= 'Z')
    ensures 'a' <= r <= 'z' <==> 'a' <= c <= 'z' || 'A' <= c <= 'Z'
  {
    if 'A' <= c <= 'Z' then (c as int - 'A' as int + 'a' as int) as char else c
  }

  /** The `k`-th upper-case letter is `k` places after `'A'`. */
  lemma UpperLetterAt(k: int)
    requires 0 <= k < 26
    ensures UpperLetters[k] as int - 'A' as int == k
  {
  }

  /** Lowercasing maps the upper-case alphabet onto the lower-case one, letter by letter. */
  lemma LowerAlphabet()
    ensures |Lower(UpperLetters)| == 26 && Lower(UpperLetters) == LowerLetters
  {
    forall k | 0 <= k < 26 ensures LowerChar(UpperLetters[k]) == LowerLetters[k] {
      UpperLetterAt(k);
    }
  }

  /** Python's `str.lower()`, restricted to ASCII. */
  function Lower(s: string): (r: string)
    ensures |r| == |s|
    ensures forall i :: 0 <= i < |s| ==> r[i] == LowerChar(s[i])
  {
    seq(|s|, i requires 0 <= i < |s| => LowerChar(s[i]))
  }

  lemma LowerConcat(a: string, b: string)
    ensures Lower(a + b) == Lower(a) + Lower(b)
  {
  }

  lemma LowerTail(s: string)
    requires s != []
    ensures Lower(s)[1..] == Lower(s[1..])
  {
  }

  /** Python's `s.startswith(p)`. */
  predicate StartsWith(s: string, p: string) {
    |p| <= |s| && s[..|p|] == p
  }

  /** Python's `t in c` for strings, scanning `c` from the left. */
  predicate IsSubstring(t: string, c: string)
    decreases |c|
  {
    StartsWith(c, t) || (c != [] && IsSubstring(t, c[1..]))
  }

  /** `t` occurs in `c` starting at position `i`. */
  predicate OccursAt(t: string, c: string, i: int) {
    0 <= i && i + |t| <= |c| && c[i..i + |t|] == t
  }

  /** The scanning definition agrees with the positional one: `t` occurs in `c` iff some slice of
      `c` equals `t`. */
  lemma {:induction false} SubstringAtIndex(t: string, c: string)
    ensures IsSubstring(t, c) <==> exists i :: OccursAt(t, c, i)
  {
    if StartsWith(c, t) {
      assert OccursAt(t, c, 0);
    } else if c != [] {
      SubstringAtIndex(t, c[1..]);
      if IsSubstring(t, c[1..]) {
        var i :| OccursAt(t, c[1..], i);
        assert c[1..][i..i + |t|] == c[i + 1..i + 1 + |t|];
        assert OccursAt(t, c, i + 1);
      } else {
        forall i | 0 < i && i + |t| <= |c|
          ensures !OccursAt(t, c, i)
        {
          assert c[1..][i - 1..i - 1 + |t|] == c[i..i + |t|];
          assert !OccursAt(t, c[1..], i - 1);
        }
      }
    }
  }

  /** The empty string occurs in every string. */
  lemma EmptyIsSubstring(c: string)
    ensures IsSubstring("", c)
  {
    assert StartsWith(c, "");
  }

  function DigitChar(d: nat): (r: char)
    requires d < 10
    ensures '0' <= r <= '9'
  {
    ('0' as int + d) as char
  }

  predicate IsDigits(s: string) {
    forall i :: 0 <= i < |s| ==> '0' <= s[i] <= '9'
  }

  /** Python's `f"{n}"` for a non-negative integer: decimal digits, most significant first. */
  function Decimal(n: nat): (r: string)
    ensures |r| > 0 && IsDigits(r)
    ensures |r| > 1 ==> r[0] != '0'
  {
    if n < 10 then [DigitChar(n)] else Decimal(n / 10) + [DigitChar(n % 10)]
  }

  /** The value of a string of decimal digits, read most significant first. */
  function DecimalValue(s: string): nat
    requires IsDigits(s)
  {
    if s == [] then 0 else 10 * DecimalValue(s[..|s| - 1]) + (s[|s| - 1] as int - '0' as int)
  }

  /** Rendering a number in decimal and reading it back gives the number: distinct camera IDs
      render to distinct prefixes. */
  lemma {:induction false} DecimalRoundTrip(n: nat)
    ensures DecimalValue(Decimal(n)) == n
  {
    if n >= 10 {
      DecimalRoundTrip(n / 10);
      var r := Decimal(n);
      assert r[..|r| - 1] == Decimal(n / 10);
    }
  }

  /** Each string followed by a newline, concatenated: the body of a file written with
      `f.write(name + "\n")` for every name. */
  function JoinLines(lines: seq<string>): string {
    if lines == [] then "" else lines[0] + "\n" + JoinLines(lines[1..])
  }

  /** Position of the first newline in `t`, or `|t|` when there is none. */
  function NewlineIndex(t: string): (k: nat)
    ensures k <= |t|
    ensures forall i :: 0 <= i < k ==> t[i] != '\n'
    ensures k < |t| ==> t[k] == '\n'
  {
    if t == [] then 0 else if t[0] == '\n' then 0 else 1 + NewlineIndex(t[1..])
  }

  /** The lines of a text file whose lines all end in a newline; a trailing fragment without one
      counts as a last line. */
  function Lines(t: string): seq<string>
    decreases |t|
  {
    if t == [] then []
    else
      var k := NewlineIndex(t);
      if k == |t| then [t] else [t[..k]] + Lines(t[k + 1..])
  }

  predicate NoNewline(s: string) {
    forall i :: 0 <= i < |s| ==> s[i] != '\n'
  }

  /** Reading back the lines of a written name list returns the names, in order, provided no name
      contains a newline. */
  lemma {:induction false} LinesOfJoinLines(names: seq<string>)
    requires forall i :: 0 <= i < |names| ==> NoNewline(names[i])
    ensures Lines(JoinLines(names)) == names
  {
    if names != [] {
      var t := JoinLines(names);
      var rest := JoinLines(names[1..]);
      assert t == names[0] + ("\n" + rest);
      NewlineAfter(names[0], rest);
      assert t[..|names[0]|] == names[0];
      assert t[|names[0]| + 1..] == rest;
      LinesOfJoinLines(names[1..]);
    }
  }

  lemma {:induction false} NewlineAfter(a: string, b: string)
    requires NoNewline(a)
    ensures NewlineIndex(a + ("\n" + b)) == |a|
  {
    if a != [] {
      assert (a + ("\n" + b))[1..] == a[1..] + ("\n" + b);
      NewlineAfter(a[1..], b);
    } else {
      assert a + ("\n" + b) == "\n" + b;
    }
  }
}
