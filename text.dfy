/** The string operations the core relies on: decimal rendering of numbers
    (JavaScript `String(n)`, Python `str(n)`), padding (`padStart`,
    Python's `:>3` and `:<3`), joining and JavaScript's `String.split`. */
module Text {
  import opened Wrappers

  // ---------------------------------------------------------------------
  // Decimal numbers
  // ---------------------------------------------------------------------

  predicate IsDigit(c: char) {
    '0' <= c <= '9'
  }

  predicate IsDigits(s: string) {
    forall i :: 0 <= i < |s| ==> IsDigit(s[i])
  }

  function DigitChar(d: nat): (c: char)
    requires d < 10
    ensures IsDigit(c)
  {
    ('0' as int + d) as char
  }

  function DigitValue(c: char): (d: nat)
    requires IsDigit(c)
    ensures d < 10
  {
    c as int - '0' as int
  }

  /** The number a string of decimal digits denotes; leading zeros count for nothing. */
  function ParseDigits(s: string): nat
    requires IsDigits(s)
  {
    if s == [] then 0 else 10 * ParseDigits(s[..|s| - 1]) + DigitValue(s[|s| - 1])
  }

  /** Decimal rendering of a natural number, without leading zeros. */
  function NatToString(n: nat): (s: string)
    ensures |s| >= 1 && IsDigits(s)
    ensures ParseDigits(s) == n
    ensures s[0] == '0' ==> n == 0
    decreases n
  {
    if n < 10 then [DigitChar(n)]
    else
      var prefix := NatToString(n / 10);
      assert (prefix + [DigitChar(n % 10)])[..|prefix|] == prefix;
      prefix + [DigitChar(n % 10)]
  }

  /** Decimal rendering of an integer, with a leading `-` when negative. */
  function IntToString(i: int): (s: string)
    ensures |s| >= 1
    ensures i >= 0 ==> s == NatToString(i)
    ensures i < 0 ==> s == "-" + NatToString(-i)
  {
    if i < 0 then "-" + NatToString(-i) else NatToString(i)
  }

  function Repeat(c: char, n: nat): (r: string)
    ensures |r| == n && forall k :: 0 <= k < n ==> r[k] == c
  {
    seq(n, _ => c)
  }

  lemma {:induction false} LeadingZerosAreIgnored(zeros: string, s: string)
    requires IsDigits(s)
    requires forall k :: 0 <= k < |zeros| ==> zeros[k] == '0'
    ensures IsDigits(zeros + s) && ParseDigits(zeros + s) == ParseDigits(s)
    decreases |s|
  {
    if s == [] {
      assert zeros + s == zeros;
      AllZerosParseToZero(zeros);
    } else {
      var init := s[..|s| - 1];
      assert (zeros + s)[..|zeros + s| - 1] == zeros + init;
      LeadingZerosAreIgnored(zeros, init);
    }
  }

  lemma {:induction false} AllZerosParseToZero(zeros: string)
    requires forall k :: 0 <= k < |zeros| ==> zeros[k] == '0'
    ensures IsDigits(zeros) && ParseDigits(zeros) == 0
  {
    if zeros != [] {
      AllZerosParseToZero(zeros[..|zeros| - 1]);
    }
  }

  // ---------------------------------------------------------------------
  // Padding
  // ---------------------------------------------------------------------

  /** `s` right-aligned in a field of at least `width` characters, the
      gap on the left filled with `fill` (JavaScript `padStart`, Python `:>w`). */
  function PadStart(s: string, width: nat, fill: char): (r: string)
    ensures |r| == if |s| >= width then |s| else width
    ensures r[|r| - |s|..] == s
    ensures forall k :: 0 <= k < |r| - |s| ==> r[k] == fill
  {
    if |s| >= width then s else Repeat(fill, width - |s|) + s
  }

  /** `s` left-aligned in a field of at least `width` characters, the gap
      on the right filled with `fill` (Python `:<w`). */
  function PadEnd(s: string, width: nat, fill: char): (r: string)
    ensures |r| == if |s| >= width then |s| else width
    ensures r[..|s|] == s
    ensures forall k :: |s| <= k < |r| ==> r[k] == fill
  {
    if |s| >= width then s else s + Repeat(fill, width - |s|)
  }

  // ---------------------------------------------------------------------
  // Joining and splitting
  // ---------------------------------------------------------------------

  /** The parts with `sep` between consecutive ones (`Array.join`, `str.join`). */
  function Join(parts: seq<string>, sep: string): string
  {
    if |parts| == 0 then ""
    else if |parts| == 1 then parts[0]
    else parts[0] + sep + Join(parts[1..], sep)
  }

  /** `sep` occurs in `t` starting at index `i`. */
  predicate OccursAt(t: string, sep: string, i: int) {
    0 <= i && i + |sep| <= |t| && t[i..i + |sep|] == sep
  }

  /** `sep` occurs nowhere in `t`. */
  predicate Free(t: string, sep: string) {
    forall i :: 0 <= i <= |t| ==> !OccursAt(t, sep, i)
  }

  /** JavaScript `s.split(sep)` for a non-empty separator: scanning left to
      right, every occurrence of `sep` ends one part and starts the next. */
  function Split(s: string, sep: string): (parts: seq<string>)
    requires |sep| > 0
    ensures |parts| >= 1
    ensures Join(parts, sep) == s
    ensures forall k :: 0 <= k < |parts| ==> Free(parts[k], sep)
  {
    SplitJoin(s, sep, "");
    SplitPartsAreFree(s, sep, "");
    SplitFrom(s, sep, "")
  }

  /** The scan behind Split: `cur` is the part read so far, `s` the rest. */
  function SplitFrom(s: string, sep: string, cur: string): (parts: seq<string>)
    requires |sep| > 0
    ensures |parts| >= 1
    decreases |s|
  {
    if |s| < |sep| then [cur + s]
    else if s[..|sep|] == sep then [cur] + SplitFrom(s[|sep|..], sep, "")
    else SplitFrom(s[1..], sep, cur + [s[0]])
  }

  lemma {:induction false} SplitJoin(s: string, sep: string, cur: string)
    requires |sep| > 0
    ensures Join(SplitFrom(s, sep, cur), sep) == cur + s
    decreases |s|
  {
    if |s| < |sep| {
    } else if s[..|sep|] == sep {
      var rest := SplitFrom(s[|sep|..], sep, "");
      SplitJoin(s[|sep|..], sep, "");
      assert [cur] + rest == SplitFrom(s, sep, cur);
      assert ([cur] + rest)[1..] == rest;
      assert s == sep + s[|sep|..];
      assert "" + s[|sep|..] == s[|sep|..];
    } else {
      SplitJoin(s[1..], sep, cur + [s[0]]);
      assert cur + [s[0]] + s[1..] == cur + s;
    }
  }

  lemma {:induction false} SplitPartsAreFree(s: string, sep: string, cur: string)
    requires |sep| > 0
    requires forall i :: 0 <= i < |cur| ==> !OccursAt(cur + s, sep, i)
    ensures forall k :: 0 <= k < |SplitFrom(s, sep, cur)| ==> Free(SplitFrom(s, sep, cur)[k], sep)
    decreases |s|
  {
    var parts := SplitFrom(s, sep, cur);
    if |s| < |sep| {
      forall i ensures !OccursAt(cur + s, sep, i) {
        if 0 <= i < |cur| {
        }
      }
    } else if s[..|sep|] == sep {
      forall i ensures !OccursAt(cur, sep, i) {
        if OccursAt(cur, sep, i) {
          assert (cur + s)[i..i + |sep|] == cur[i..i + |sep|];
          assert OccursAt(cur + s, sep, i);
        }
      }
      SplitPartsAreFree(s[|sep|..], sep, "");
      assert "" + s[|sep|..] == s[|sep|..];
    } else {
      var cur' := cur + [s[0]];
      assert cur' + s[1..] == cur + s;
      forall i | 0 <= i < |cur'| ensures !OccursAt(cur' + s[1..], sep, i) {
        if i == |cur| {
          assert (cur + s)[i..i + |sep|] == s[..|sep|];
        }
      }
      SplitPartsAreFree(s[1..], sep, cur');
    }
  }

  /** A single-character separator that no part contains splits back out
      of the joined string: Split undoes Join. */
  lemma {:induction false} SplitOfJoin(parts: seq<string>, sep: string)
    requires |parts| >= 1 && |sep| == 1
    requires forall k :: 0 <= k < |parts| ==> sep[0] !in parts[k]
    ensures Split(Join(parts, sep), sep) == parts
  {
    SplitFromOfJoin(parts, sep);
  }

  lemma {:induction false} SplitFromOfJoin(parts: seq<string>, sep: string)
    requires |parts| >= 1 && |sep| == 1
    requires forall k :: 0 <= k < |parts| ==> sep[0] !in parts[k]
    ensures SplitFrom(Join(parts, sep), sep, "") == parts
    decreases |parts|
  {
    var p := parts[0];
    if |parts| == 1 {
      SkipPlainText(p, "", sep, "");
      assert p + "" == p && "" + p == p;
    } else {
      var tail := Join(parts[1..], sep);
      assert Join(parts, sep) == p + (sep + tail);
      SkipPlainText(p, sep + tail, sep, "");
      assert "" + p == p;
      assert (sep + tail)[..|sep|] == sep && (sep + tail)[|sep|..] == tail;
      SplitFromOfJoin(parts[1..], sep);
      assert parts == [p] + parts[1..];
    }
  }

  /** Scanning text that holds no separator character only extends the current part. */
  lemma {:induction false} SkipPlainText(p: string, rest: string, sep: string, cur: string)
    requires |sep| == 1 && sep[0] !in p
    ensures SplitFrom(p + rest, sep, cur) == SplitFrom(rest, sep, cur + p)
    decreases |p|
  {
    if p != [] {
      var s := p + rest;
      assert s[..1] != sep by { assert s[0] == p[0]; }
      assert s[1..] == p[1..] + rest;
      SkipPlainText(p[1..], rest, sep, cur + [p[0]]);
      assert cur + [p[0]] + p[1..] == cur + p;
    } else {
      assert p + rest == rest && cur + p == cur;
    }
  }

  /** Joining two non-empty lists is joining each and putting `sep` between. */
  lemma {:induction false} JoinAppend(a: seq<string>, b: seq<string>, sep: string)
    requires |a| >= 1 && |b| >= 1
    ensures Join(a + b, sep) == Join(a, sep) + sep + Join(b, sep)
    decreases |a|
  {
    if |a| == 1 {
      assert (a + b)[1..] == b;
    } else {
      assert (a + b)[1..] == a[1..] + b;
      JoinAppend(a[1..], b, sep);
    }
  }

  /** The last part of a split is a suffix of `s` that holds no `sep`, and
      unless it is the whole of `s` it comes straight after an occurrence of `sep`. */
  lemma {:induction false} LastPartFollowsSeparator(s: string, sep: string)
    requires |sep| > 0
    ensures var parts := Split(s, sep);
      var last := parts[|parts| - 1];
      && |last| <= |s| && s[|s| - |last|..] == last
      && (|parts| > 1 ==> OccursAt(s, sep, |s| - |last| - |sep|))
  {
    var parts := Split(s, sep);
    var n := |parts|;
    if n > 1 {
      JoinAppend(parts[..n - 1], [parts[n - 1]], sep);
      assert parts[..n - 1] + [parts[n - 1]] == parts;
      var head := Join(parts[..n - 1], sep);
      assert s == head + sep + parts[n - 1];
      assert s[|head|..|head| + |sep|] == sep;
    }
  }

  /** Splitting a string that holds no `sep` gives the string back whole. */
  lemma SplitOfFreeIsWhole(s: string, sep: string)
    requires |sep| > 0
    ensures Free(s, sep) ==> Split(s, sep) == [s]
  {
    if Free(s, sep) {
      SplitOfFree(s, sep, "");
      assert "" + s == s;
    }
  }

  lemma {:induction false} SplitOfFree(s: string, sep: string, cur: string)
    requires |sep| > 0 && Free(s, sep)
    ensures SplitFrom(s, sep, cur) == [cur + s]
    decreases |s|
  {
    if |s| >= |sep| {
      assert s[..|sep|] != sep by { assert !OccursAt(s, sep, 0); }
      forall i ensures !OccursAt(s[1..], sep, i) {
        if OccursAt(s[1..], sep, i) {
          assert s[i + 1..i + 1 + |sep|] == s[1..][i..i + |sep|];
          assert OccursAt(s, sep, i + 1);
        }
      }
      SplitOfFree(s[1..], sep, cur + [s[0]]);
      assert cur + [s[0]] + s[1..] == cur + s;
    }
  }

  // ---------------------------------------------------------------------
  // Reading numbers back
  // ---------------------------------------------------------------------

  predicate IsSpaces(s: string) {
    forall k :: 0 <= k < |s| ==> s[k] == ' '
  }

  /** `s` without its leading and trailing spaces. */
  function TrimSpaces(s: string): (t: string)
    ensures |t| <= |s|
    ensures t != [] ==> t[0] != ' ' && t[|t| - 1] != ' '
    decreases |s|
  {
    if s == [] then s
    else if s[0] == ' ' then TrimSpaces(s[1..])
    else if s[|s| - 1] == ' ' then TrimSpaces(s[..|s| - 1])
    else s
  }

  /** The integer a decimal string denotes, with an optional leading `-`;
      None for anything else. */
  function ParseInt(s: string): Option<int>
  {
    if |s| >= 2 && s[0] == '-' && IsDigits(s[1..]) then Some(-(ParseDigits(s[1..]) as int))
    else if |s| >= 1 && IsDigits(s) then Some(ParseDigits(s) as int)
    else None
  }

  /** The number a field of text holds, ignoring the spaces that align it. */
  function ReadInt(field: string): Option<int>
  {
    ParseInt(TrimSpaces(field))
  }

  /** Decimal rendering and `ParseInt` are inverse. */
  lemma IntToStringRoundTrip(i: int)
    ensures ParseInt(IntToString(i)) == Some(i)
  {
    var s := IntToString(i);
    if i < 0 {
      assert s[1..] == NatToString(-i);
    } else {
      assert IsDigit(s[0]);
    }
  }

  /** The characters of a rendered integer are digits and possibly a `-`. */
  lemma IntToStringChars(i: int)
    ensures forall k :: 0 <= k < |IntToString(i)| ==> IntToString(i)[k] == '-' || IsDigit(IntToString(i)[k])
  {
    var s := IntToString(i);
    if i < 0 {
      forall k | 1 <= k < |s| ensures IsDigit(s[k]) {
        assert s[k] == NatToString(-i)[k - 1];
      }
    }
  }

  /** Spaces around a word that neither starts nor ends with a space are trimmed away. */
  lemma {:induction false} TrimPadded(pre: string, core: string, post: string)
    requires IsSpaces(pre) && IsSpaces(post)
    requires core != [] && core[0] != ' ' && core[|core| - 1] != ' '
    ensures TrimSpaces(pre + core + post) == core
    decreases |pre| + |post|
  {
    var s := pre + core + post;
    if pre != [] {
      assert s[0] == ' ' && s[1..] == pre[1..] + core + post;
      TrimPadded(pre[1..], core, post);
    } else if post != [] {
      assert s[0] == core[0] && s[|s| - 1] == ' ';
      assert s[..|s| - 1] == pre + core + post[..|post| - 1];
      TrimPadded(pre, core, post[..|post| - 1]);
    } else {
      assert s == core;
    }
  }

  /** A rendered integer reads back as itself whatever spaces align it. */
  lemma ReadAligned(pre: string, i: int, post: string)
    requires IsSpaces(pre) && IsSpaces(post)
    ensures ReadInt(pre + IntToString(i) + post) == Some(i)
  {
    var s := IntToString(i);
    IntToStringChars(i);
    assert s[0] != ' ' && s[|s| - 1] != ' ';
    TrimPadded(pre, s, post);
    IntToStringRoundTrip(i);
  }

  lemma ReadRightAligned(pre: string, i: int)
    requires IsSpaces(pre)
    ensures ReadInt(pre + IntToString(i)) == Some(i)
  {
    ReadAligned(pre, i, "");
    assert pre + IntToString(i) + "" == pre + IntToString(i);
  }

  /** A character in neither the parts nor the separator is not in their join. */
  lemma {:induction false} JoinLacks(parts: seq<string>, sep: string, c: char)
    requires c !in sep && forall k :: 0 <= k < |parts| ==> c !in parts[k]
    ensures c !in Join(parts, sep)
    decreases |parts|
  {
    if |parts| > 1 {
      JoinLacks(parts[1..], sep, c);
    }
  }
}
