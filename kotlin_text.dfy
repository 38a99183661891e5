/**
 * The few Kotlin string operations the journal code relies on: `trim`,
 * `isBlank`, `split` on one delimiter and `joinToString`.
 */
module KotlinText {

  /**
   * Kotlin's `Char.isWhitespace()`: Java's `Character.isWhitespace` or
   * `Character.isSpaceChar`, i.e. the ASCII controls TAB..CR and FS..US plus
   * every space, line and paragraph separator of Unicode.
   */
  predicate IsWhitespace(c: char) {
    || ('\U{9}' <= c <= '\U{D}')
    || ('\U{1C}' <= c <= '\U{20}')
    || c == '\U{A0}' || c == '\U{1680}'
    || ('\U{2000}' <= c <= '\U{200A}')
    || c == '\U{2028}' || c == '\U{2029}' || c == '\U{202F}' || c == '\U{205F}' || c == '\U{3000}'
  }

  /** `isBlank()`: empty or whitespace only. */
  predicate IsBlank(s: string) {
    forall i :: 0 <= i < |s| ==> IsWhitespace(s[i])
  }

  /** No whitespace at either end. */
  predicate IsTrimmed(s: string) {
    s == [] || (!IsWhitespace(s[0]) && !IsWhitespace(s[|s| - 1]))
  }

  /** The number of whitespace characters `s` starts with. */
  function LeadingSpace(s: string): (k: nat)
    ensures k <= |s| && IsBlank(s[..k])
    ensures k < |s| ==> !IsWhitespace(s[k])
  {
    if s != [] && IsWhitespace(s[0]) then 1 + LeadingSpace(s[1..]) else 0
  }

  /** The index where the whitespace that `s` ends with begins. */
  function TrailingSpaceStart(s: string): (k: nat)
    ensures k <= |s| && IsBlank(s[k..])
    ensures 0 < k ==> !IsWhitespace(s[k - 1])
  {
    if s != [] && IsWhitespace(s[|s| - 1]) then TrailingSpaceStart(s[..|s| - 1]) else |s|
  }

  /**
   * `trim()`: `s` without its leading and trailing whitespace. The result is
   * a slice of `s` with no whitespace at either end; it is empty exactly
   * when `s` is blank, and a trimmed string is its own trim.
   */
  function Trim(s: string): (r: string)
    ensures IsTrimmed(r)
    ensures exists i, j :: 0 <= i <= j <= |s| && r == s[i..j] && IsBlank(s[..i]) && IsBlank(s[j..])
    ensures r == [] <==> IsBlank(s)
    ensures IsTrimmed(s) ==> r == s
  {
    var i := LeadingSpace(s);
    var j := i + TrailingSpaceStart(s[i..]);
    TrimBounds(s, i, j);
    TrimEmptyIffBlank(s, i, j);
    TrimOfTrimmed(s, i, j);
    s[i..j]
  }

  /** The two cut points of `Trim`: blank outside, no whitespace at either end inside. */
  lemma TrimBounds(s: string, i: nat, j: nat)
    requires i == LeadingSpace(s) && j == i + TrailingSpaceStart(s[i..])
    ensures i <= j <= |s| && IsBlank(s[..i]) && IsBlank(s[j..]) && IsTrimmed(s[i..j])
  {
    var t := s[i..];
    var k := TrailingSpaceStart(t);
    assert IsBlank(t[k..]);
    assert t[k..] == s[j..];
    TrimInside(s, i, j);
  }

  lemma TrimInside(s: string, i: nat, j: nat)
    requires i == LeadingSpace(s) && j == i + TrailingSpaceStart(s[i..])
    ensures IsTrimmed(s[i..j])
  {
    var t := s[i..];
    var k := TrailingSpaceStart(t);
    if 0 < k {
      var r := s[i..j];
      assert r[0] == t[0];
      assert !IsWhitespace(t[k - 1]);
      assert r[|r| - 1] == t[k - 1];
    }
  }

  lemma TrimEmptyIffBlank(s: string, i: nat, j: nat)
    requires i == LeadingSpace(s) && j == i + TrailingSpaceStart(s[i..])
    ensures i == j <==> IsBlank(s)
  {
    TrimBounds(s, i, j);
    if i == j {
      assert s[..i] == s;
    }
    if IsBlank(s) {
      assert i == |s|;
    }
  }

  lemma TrimOfTrimmed(s: string, i: nat, j: nat)
    requires i == LeadingSpace(s) && j == i + TrailingSpaceStart(s[i..])
    ensures IsTrimmed(s) ==> s[i..j] == s
  {
    if IsTrimmed(s) && s != [] {
      assert i == 0;
      assert s[i..] == s;
      assert j == |s|;
    }
  }

  /** Occurrences of `c` in `s`. */
  function CountChar(s: string, c: char): nat {
    if s == [] then 0 else (if s[0] == c then 1 else 0) + CountChar(s[1..], c)
  }

  /**
   * `split(sep)` with one delimiter and no limit: the pieces between
   * delimiters, keeping empty ones, so there is always one more piece than
   * there are delimiters.
   */
  function Split(s: string, sep: char): (r: seq<string>)
    ensures |r| == CountChar(s, sep) + 1
    ensures forall k :: 0 <= k < |r| ==> sep !in r[k]
  {
    if s == [] then [""]
    else
      var rest := Split(s[1..], sep);
      if s[0] == sep then [""] + rest
      else [[s[0]] + rest[0]] + rest[1..]
  }

  /** `joinToString(sep)`. */
  function Join(parts: seq<string>, sep: char): string {
    if parts == [] then ""
    else if |parts| == 1 then parts[0]
    else parts[0] + [sep] + Join(parts[1..], sep)
  }

  lemma {:induction false} SplitPrefix(p: string, sep: char, t: string)
    requires sep !in p
    ensures Split(p + [sep] + t, sep) == [p] + Split(t, sep)
    ensures Split(p, sep) == [p]
  {
    if p != [] {
      SplitPrefix(p[1..], sep, t);
      assert (p + [sep] + t)[1..] == p[1..] + [sep] + t;
      assert [p[0]] + p[1..] == p;
    }
  }

  /** Splitting a join of delimiter-free pieces gives the pieces back. */
  lemma {:induction false} SplitJoin(parts: seq<string>, sep: char)
    requires parts != []
    requires forall k :: 0 <= k < |parts| ==> sep !in parts[k]
    ensures Split(Join(parts, sep), sep) == parts
  {
    if |parts| == 1 {
      SplitPrefix(parts[0], sep, "");
    } else {
      SplitJoin(parts[1..], sep);
      SplitPrefix(parts[0], sep, Join(parts[1..], sep));
      assert [parts[0]] + parts[1..] == parts;
    }
  }

  /** Joining the pieces of a split with the same delimiter gives the string back. */
  lemma {:induction false} JoinSplit(s: string, sep: char)
    ensures Join(Split(s, sep), sep) == s
  {
    if s != [] {
      var rest := Split(s[1..], sep);
      JoinSplit(s[1..], sep);
      if s[0] == sep {
        assert Split(s, sep) == [""] + rest;
        assert ([""] + rest)[1..] == rest;
      } else {
        var r := Split(s, sep);
        assert r == [[s[0]] + rest[0]] + rest[1..];
        if |rest| == 1 {
          assert Join(r, sep) == [s[0]] + rest[0];
        } else {
          assert r[1..] == rest[1..];
          assert Join(rest, sep) == rest[0] + [sep] + Join(rest[1..], sep);
        }
        assert [s[0]] + s[1..] == s;
      }
    }
  }
}
