/** The JavaScript string primitives the adapters rely on: `trim`, `split`, `indexOf`,
    `parseInt`, `Number`, `String(n)`, `padStart`, plain code-point ordering, and the
    scanning done by the few regular expressions the adapters use. */
module JsText {
  import opened Wrappers

  /** The code points JavaScript's `trim` removes and `\s` matches (WhiteSpace and LineTerminator). */
  predicate IsSpace(c: char) {
    || c == ' ' || c == '\t' || c == '\n' || c == '\r' || c == '\U{000B}' || c == '\U{000C}'
    || c == '\U{00A0}' || c == '\U{FEFF}' || c == '\U{1680}' || ('\U{2000}' <= c <= '\U{200A}')
    || c == '\U{2028}' || c == '\U{2029}' || c == '\U{202F}' || c == '\U{205F}' || c == '\U{3000}'
  }

  /** The characters a regular-expression `.` does not match. */
  predicate IsLineTerminator(c: char) {
    c == '\n' || c == '\r' || c == '\U{2028}' || c == '\U{2029}'
  }

  /** `\d`: an ASCII decimal digit. */
  predicate IsDigit(c: char) {
    '0' <= c <= '9'
  }

  predicate AllDigits(s: string) {
    forall i :: 0 <= i < |s| ==> IsDigit(s[i])
  }

  predicate AllSpace(s: string) {
    forall i :: 0 <= i < |s| ==> IsSpace(s[i])
  }

  // ---------------------------------------------------------------- trim

  /** `s.trimStart()`. */
  function TrimStart(s: string): (r: string)
    ensures |r| <= |s|
  {
    if s != [] && IsSpace(s[0]) then TrimStart(s[1..]) else s
  }

  /** `trimStart` drops a prefix of white space and keeps the rest, which does not start
      with white space. */
  lemma {:induction false} TrimStartSpec(s: string)
    ensures TrimStart(s) == s[|s| - |TrimStart(s)|..]
    ensures AllSpace(s[..|s| - |TrimStart(s)|])
    ensures TrimStart(s) == [] || !IsSpace(TrimStart(s)[0])
  {
    if s != [] && IsSpace(s[0]) {
      var t := s[1..];
      TrimStartSpec(t);
      var r := TrimStart(t);
      var n := |s| - |r|;
      assert t[|t| - |r|..] == s[n..];
      forall i | 0 <= i < n
        ensures IsSpace(s[i])
      {
        if i > 0 {
          assert s[i] == t[..|t| - |r|][i - 1];
        }
      }
    }
  }

  /** `s.trimEnd()`. */
  function TrimEnd(s: string): (r: string)
    ensures |r| <= |s|
  {
    if s != [] && IsSpace(s[|s| - 1]) then TrimEnd(s[..|s| - 1]) else s
  }

  /** `trimEnd` drops a suffix of white space and keeps the rest, which does not end with
      white space. */
  lemma {:induction false} TrimEndSpec(s: string)
    ensures TrimEnd(s) == s[..|TrimEnd(s)|]
    ensures AllSpace(s[|TrimEnd(s)|..])
    ensures TrimEnd(s) == [] || !IsSpace(TrimEnd(s)[|TrimEnd(s)| - 1])
  {
    if s != [] && IsSpace(s[|s| - 1]) {
      var t := s[..|s| - 1];
      TrimEndSpec(t);
      var r := TrimEnd(t);
      assert t[..|r|] == s[..|r|];
      forall i | |r| <= i < |s|
        ensures IsSpace(s[i])
      {
        if i < |s| - 1 {
          assert s[i] == t[|r|..][i - |r|];
        }
      }
    }
  }

  /** `s.trim()`. */
  function Trim(s: string): (r: string)
    ensures |r| <= |s|
  {
    TrimEnd(TrimStart(s))
  }

  /** `trim` keeps the part of `s` between a white-space prefix and a white-space suffix;
      that part neither starts nor ends with white space, and it is empty exactly when `s`
      is white space only. */
  lemma TrimSpec(s: string)
    ensures var r, i := Trim(s), |s| - |TrimStart(s)|;
      && i + |r| <= |s| && r == s[i..i + |r|]
      && AllSpace(s[..i]) && AllSpace(s[i + |r|..])
    ensures Trim(s) == [] || (!IsSpace(Trim(s)[0]) && !IsSpace(Trim(s)[|Trim(s)| - 1]))
    ensures Trim(s) == [] <==> AllSpace(s)
  {
    var t := TrimStart(s);
    TrimStartSpec(s);
    TrimEndSpec(t);
    var r := TrimEnd(t);
    var i := |s| - |t|;
    assert r == s[i..i + |r|];
    forall k | i + |r| <= k < |s|
      ensures IsSpace(s[k])
    {
      assert s[k] == t[|r|..][k - i - |r|];
    }
    if r == [] {
      forall k | 0 <= k < |s|
        ensures IsSpace(s[k])
      {
        if k < i {
          assert s[k] == s[..i][k];
        }
      }
    } else {
      assert r[0] == s[i];
    }
  }

  /** Text with no white space at either end is left alone by `trim`. */
  lemma TrimIdentity(s: string)
    requires s == [] || (!IsSpace(s[0]) && !IsSpace(s[|s| - 1]))
    ensures Trim(s) == s
  {
  }

  // ---------------------------------------------------------------- indexOf and split

  /** `s.indexOf(c)`: the first position of `c`, or -1 when `c` does not occur. */
  function IndexOf(s: string, c: char): (r: int)
    ensures -1 <= r < |s|
    ensures r == -1 <==> c !in s
    ensures r >= 0 ==> s[r] == c && c !in s[..r]
  {
    if s == [] then -1
    else if s[0] == c then 0
    else
      var k := IndexOf(s[1..], c);
      if k == -1 then -1
      else
        assert s[..k + 1] == [s[0]] + s[1..][..k];
        k + 1
  }

  function CountChar(s: string, c: char): (n: nat)
    ensures n <= |s|
  {
    if s == [] then 0 else (if s[0] == c then 1 else 0) + CountChar(s[1..], c)
  }

  /** `parts.join(sep)`. */
  function Join(parts: seq<string>, sep: char): string
    requires |parts| >= 1
  {
    if |parts| == 1 then parts[0] else parts[0] + [sep] + Join(parts[1..], sep)
  }

  /** `s.split(sep)` for a one-character separator: the text up to the first separator,
      then the parts of the rest; a text without the separator is one part. */
  function Split(s: string, sep: char): (parts: seq<string>)
    ensures |parts| >= 1
    decreases |s|
  {
    var i := IndexOf(s, sep);
    if i == -1 then [s] else [s[..i]] + Split(s[i + 1..], sep)
  }

  /** `split` gives one part more than there are separators. */
  lemma {:induction false} SplitCount(s: string, sep: char)
    decreases |s|
    ensures |Split(s, sep)| == CountChar(s, sep) + 1
  {
    var i := IndexOf(s, sep);
    if i == -1 {
      CountAbsent(s, sep);
    } else {
      SplitCount(s[i + 1..], sep);
      CountSplit(s, sep, i);
    }
  }

  /** No part holds the separator. */
  lemma {:induction false} SplitParts(s: string, sep: char)
    decreases |s|
    ensures forall k :: 0 <= k < |Split(s, sep)| ==> sep !in Split(s, sep)[k]
  {
    var i := IndexOf(s, sep);
    if i != -1 {
      var rest := Split(s[i + 1..], sep);
      SplitParts(s[i + 1..], sep);
      var parts := Split(s, sep);
      assert parts == [s[..i]] + rest;
      forall k | 0 <= k < |parts|
        ensures sep !in parts[k]
      {
        if k > 0 {
          assert parts[k] == rest[k - 1];
        }
      }
    }
  }

  /** Joining the parts with the separator gives `s` back. */
  lemma {:induction false} SplitJoin(s: string, sep: char)
    decreases |s|
    ensures Join(Split(s, sep), sep) == s
  {
    var i := IndexOf(s, sep);
    if i != -1 {
      var head, tail := s[..i], s[i + 1..];
      var rest := Split(tail, sep);
      SplitJoin(tail, sep);
      JoinCons(head, rest, sep);
      assert Split(s, sep) == [head] + rest;
      assert s == head + [sep] + tail;
    }
  }

  /** Joining a first part before the others puts one separator between them. */
  lemma JoinCons(head: string, rest: seq<string>, sep: char)
    requires |rest| >= 1
    ensures Join([head] + rest, sep) == head + [sep] + Join(rest, sep)
  {
    assert ([head] + rest)[1..] == rest;
  }

  /** Splitting parts joined with a separator none of them holds gives the parts back. */
  lemma {:induction false} SplitOfJoin(parts: seq<string>, sep: char)
    requires |parts| >= 1
    requires forall k :: 0 <= k < |parts| ==> sep !in parts[k]
    ensures Split(Join(parts, sep), sep) == parts
  {
    if |parts| == 1 {
      SplitWithoutSeparator(parts[0], sep);
    } else {
      SplitOfJoin(parts[1..], sep);
      SplitFirst(parts[0], Join(parts[1..], sep), sep);
      assert parts == [parts[0]] + parts[1..];
    }
  }

  lemma {:induction false} CountAbsent(s: string, c: char)
    requires c !in s
    ensures CountChar(s, c) == 0
  {
    if s != [] {
      assert c !in s[1..];
      CountAbsent(s[1..], c);
    }
  }

  lemma {:induction false} CountSplit(s: string, c: char, i: nat)
    requires i < |s| && s[i] == c && c !in s[..i]
    ensures CountChar(s, c) == 1 + CountChar(s[i + 1..], c)
  {
    if i == 0 {
    } else {
      assert s[0] != c by { assert s[0] == s[..i][0]; }
      assert s[1..][..i - 1] == s[1..i];
      CountSplit(s[1..], c, i - 1);
      assert s[1..][i..] == s[i + 1..];
    }
  }

  /** Splitting a text that does not contain the separator gives the text alone. */
  lemma SplitWithoutSeparator(s: string, sep: char)
    requires sep !in s
    ensures Split(s, sep) == [s]
  {
  }

  /** The first separator of `a + [sep] + b` is the one after `a` when `a` has none. */
  lemma IndexOfFirst(a: string, b: string, sep: char)
    requires sep !in a
    ensures IndexOf(a + [sep] + b, sep) == |a|
  {
    var s := a + [sep] + b;
    assert s[|a|] == sep;
    assert forall i :: 0 <= i < |a| ==> s[i] == a[i];
    assert forall j :: |a| < j <= |s| ==> s[..j][|a|] == sep;
  }

  /** A text that starts with a separator-free part and a separator splits into that part
      followed by the parts of the rest. */
  lemma SplitFirst(a: string, b: string, sep: char)
    requires sep !in a
    ensures Split(a + [sep] + b, sep) == [a] + Split(b, sep)
  {
    var s := a + [sep] + b;
    IndexOfFirst(a, b, sep);
    assert s[..|a|] == a && s[|a| + 1..] == b;
  }

  // ---------------------------------------------------------------- characters in place

  /** `s.replace(/a/g, b)` for single characters. */
  function ReplaceChar(s: string, a: char, b: char): (r: string)
    ensures |r| == |s|
    ensures forall i :: 0 <= i < |s| ==> r[i] == (if s[i] == a then b else s[i])
  {
    if s == [] then [] else ReplaceChar(s[..|s| - 1], a, b) + [if s[|s| - 1] == a then b else s[|s| - 1]]
  }

  /** `s.replaceAll(c, '')`: `s` with every `c` removed and the rest in order. */
  function RemoveChar(s: string, c: char): (r: string)
    ensures |r| == |s| - CountChar(s, c)
    ensures c !in r
    ensures forall x :: x in r <==> x in s && x != c
  {
    if s == [] then [] else (if s[0] == c then [] else [s[0]]) + RemoveChar(s[1..], c)
  }

  /** Removing a character from a concatenation removes it from each part. */
  lemma {:induction false} RemoveCharAppend(a: string, b: string, c: char)
    ensures RemoveChar(a + b, c) == RemoveChar(a, c) + RemoveChar(b, c)
  {
    if a != [] {
      RemoveCharAppend(a[1..], b, c);
      assert (a + b)[0] == a[0] && (a + b)[1..] == a[1..] + b;
    } else {
      assert a + b == b;
    }
  }

  /** Text without the character is left as it is. */
  lemma {:induction false} RemoveCharAbsent(s: string, c: char)
    requires c !in s
    ensures RemoveChar(s, c) == s
  {
    if s != [] {
      assert c !in s[1..];
      RemoveCharAbsent(s[1..], c);
    }
  }

  /** `s.slice(0, end)`: a negative end counts back from the end of `s`, and the end is
      clamped to the text. */
  function SlicePrefix(s: string, end: int): (r: string)
    ensures |r| <= |s| && r == s[..|r|]
  {
    var e := if end < 0 then |s| + end else end;
    if e <= 0 then [] else if e >= |s| then s else s[..e]
  }

  /** `pat` occurs in `s` at position `k`. */
  predicate OccursAt(s: string, pat: string, k: nat)
  {
    k + |pat| <= |s| && s[k..k + |pat|] == pat
  }

  /** The first position at or after `from` where `pat` occurs. */
  function FindText(s: string, pat: string, from: nat): (r: Option<nat>)
    requires |pat| > 0
    decreases |s| - from
    ensures r.Some? ==> from <= r.value && OccursAt(s, pat, r.value)
    ensures r.Some? ==> forall k :: from <= k < r.value ==> !OccursAt(s, pat, k)
    ensures r.None? ==> forall k :: from <= k ==> !OccursAt(s, pat, k)
  {
    if from + |pat| > |s| then None
    else if s[from..from + |pat|] == pat then Some(from)
    else FindText(s, pat, from + 1)
  }

  /** `s.replace(pat, rep)` with a string pattern: only the first occurrence is replaced. */
  function ReplaceFirst(s: string, pat: string, rep: string): (r: string)
    requires |pat| > 0
  {
    match FindText(s, pat, 0)
    case None => s
    case Some(i) => s[..i] + rep + s[i + |pat|..]
  }

  // ---------------------------------------------------------------- numbers

  function DigitValue(c: char): (d: nat)
    requires IsDigit(c)
    ensures d < 10
  {
    (c as int - '0' as int) as nat
  }

  function DigitChar(d: nat): (c: char)
    requires d < 10
    ensures IsDigit(c) && DigitValue(c) == d
  {
    ('0' as int + d) as char
  }

  /** The value of the decimal digits `s[i..e]`, most significant digit first. */
  function RunValue(s: string, i: nat, e: nat): nat
    requires i <= e <= |s| && forall k :: i <= k < e ==> IsDigit(s[k])
    decreases e - i
  {
    if e == i then 0 else RunValue(s, i, e - 1) * 10 + DigitValue(s[e - 1])
  }

  /** The value of a decimal digit string. */
  function DigitsValue(d: string): nat
    requires AllDigits(d)
  {
    RunValue(d, 0, |d|)
  }

  /** A single digit is worth its own value. */
  lemma DigitsValueOfDigit(c: char)
    requires IsDigit(c)
    ensures AllDigits([c]) && DigitsValue([c]) == DigitValue(c)
  {
    assert RunValue([c], 0, 0) == 0;
  }

  /** Equal digits have equal values wherever they stand: when the `n` characters of `s`
      at `p` are the first `n` of the digit string `t`, they have the value of those. */
  lemma {:induction false} RunValueShift(s: string, p: nat, t: string, n: nat)
    requires p + n <= |s| && n <= |t| && AllDigits(t)
    requires forall k :: p <= k < p + n ==> s[k] == t[k - p]
    decreases n
    ensures forall k :: p <= k < p + n ==> IsDigit(s[k])
    ensures RunValue(s, p, p + n) == RunValue(t, 0, n)
  {
    if n > 0 {
      RunValueShift(s, p, t, n - 1);
    }
  }

  /** The end of the maximal run of digits that starts at `i`. */
  function DigitRunEnd(s: string, i: nat): (e: nat)
    requires i <= |s|
    decreases |s| - i
    ensures i <= e <= |s|
    ensures forall k :: i <= k < e ==> IsDigit(s[k])
    ensures e == |s| || !IsDigit(s[e])
  {
    if i < |s| && IsDigit(s[i]) then DigitRunEnd(s, i + 1) else i
  }

  /** The end of the run of white space that starts at `i`. */
  function SpaceRunEnd(s: string, i: nat): (e: nat)
    requires i <= |s|
    decreases |s| - i
    ensures i <= e <= |s|
    ensures forall k :: i <= k < e ==> IsSpace(s[k])
    ensures e == |s| || !IsSpace(s[e])
  {
    if i < |s| && IsSpace(s[i]) then SpaceRunEnd(s, i + 1) else i
  }

  /** `parseInt(s)` (no radix): leading white space, an optional sign, then the longest
      run of digits; `None` stands for `NaN` when there is no digit there. */
  function ParseInt(s: string): Option<int>
  {
    var t := TrimStart(s);
    var signed := t != [] && (t[0] == '-' || t[0] == '+');
    var body := if signed then t[1..] else t;
    var e := DigitRunEnd(body, 0);
    var v: int := RunValue(body, 0, e);
    if e == 0 then None
    else if signed && t[0] == '-' then Some(-v)
    else Some(v)
  }

  /** `parseInt` of a plain digit string is the string's decimal value. */
  lemma ParseIntDigits(d: string)
    requires d != [] && AllDigits(d)
    ensures ParseInt(d) == Some(DigitsValue(d))
  {
    assert TrimStart(d) == d by { assert !IsSpace(d[0]); }
    assert !IsDigit(d[0]) ==> false;
    assert DigitRunEnd(d, 0) == |d|;
  }

  /** `Number(s)` for a string: white space around is ignored, the empty string is 0,
      an optionally signed digit string is its value, anything else is `NaN` (`None`). */
  function NumberOf(s: string): (r: Option<int>)
    ensures Trim(s) == [] ==> r == Some(0)
  {
    var t := Trim(s);
    if t == [] then Some(0)
    else
      var signed := t[0] == '-' || t[0] == '+';
      var body := if signed then t[1..] else t;
      if body == [] || !AllDigits(body) then None
      else
        var v: int := DigitsValue(body);
        if t[0] == '-' then Some(-v) else Some(v)
  }

  /** `String(n)` for a natural number: its decimal digits, no leading zero. */
  function NatToString(n: nat): (r: string)
    decreases n
    ensures |r| >= 1 && AllDigits(r)
    ensures DigitsValue(r) == n
    ensures |r| > 1 ==> r[0] != '0'
  {
    if n < 10 then [DigitChar(n)]
    else
      var h := NatToString(n / 10);
      var r := h + [DigitChar(n % 10)];
      RunValueShift(r, 0, h, |h|);
      r
  }

  /** `String(n)` for an integer. */
  function IntToString(n: int): (r: string)
    ensures |r| >= 1
    ensures n >= 0 ==> AllDigits(r) && DigitsValue(r) == n
    ensures n < 0 ==> r[0] == '-' && AllDigits(r[1..]) && DigitsValue(r[1..]) == -n
  {
    if n < 0 then
      var r := "-" + NatToString(-n);
      assert r[1..] == NatToString(-n);
      r
    else NatToString(n)
  }

  /** `s.padStart(2, '0')`. */
  function PadStart2(s: string): (r: string)
    ensures |r| == if |s| >= 2 then |s| else 2
    ensures r[|r| - |s|..] == s
    ensures forall i :: 0 <= i < |r| - |s| ==> r[i] == '0'
  {
    if |s| >= 2 then s else if |s| == 1 then ['0'] + s else "00"
  }

  /** Zero-padding a number below 100 gives exactly two digits with the number's value. */
  lemma {:induction false} PadStart2Digits(n: nat)
    requires n < 100
    ensures |PadStart2(NatToString(n))| == 2
    ensures AllDigits(PadStart2(NatToString(n)))
    ensures DigitsValue(PadStart2(NatToString(n))) == n
  {
    var d := NatToString(n);
    if n < 10 {
      assert d == [DigitChar(n)];
      assert PadStart2(d) == ['0', DigitChar(n)];
    } else {
      assert |d| == 2 by {
        assert NatToString(n / 10) == [DigitChar(n / 10)];
      }
    }
  }

  // ---------------------------------------------------------------- ordering

  /** Plain code-point comparison of strings (`<` on JavaScript strings). */
  predicate LexLess(a: string, b: string)
  {
    if a == [] then b != []
    else if b == [] then false
    else if a[0] != b[0] then a[0] < b[0]
    else LexLess(a[1..], b[1..])
  }

  /** The string order is strict and total. */
  lemma {:induction false} LexTotal(a: string, b: string)
    ensures !(LexLess(a, b) && LexLess(b, a))
    ensures !LexLess(a, a)
    ensures a != b ==> LexLess(a, b) || LexLess(b, a)
  {
    if a != [] {
      LexTotal(a[1..], a[1..]);
    }
    if a != [] && b != [] {
      LexTotal(a[1..], b[1..]);
      if a[0] == b[0] && a != b {
        assert a == [a[0]] + a[1..] && b == [b[0]] + b[1..];
      }
    }
  }

  /** The string order is transitive. */
  lemma {:induction false} LexTrans(a: string, b: string, c: string)
    requires LexLess(a, b) && LexLess(b, c)
    ensures LexLess(a, c)
  {
    if a != [] && a[0] == b[0] && b[0] == c[0] {
      LexTrans(a[1..], b[1..], c[1..]);
    }
  }

  // ---------------------------------------------------------------- regular-expression scanning

  /** `k` is where a lazy `(.*?)` that starts at `from` stops at a closing character:
      `s[k]` closes and no line terminator stands between `from` and `k`. */
  ghost predicate ReachesClose(s: string, from: nat, k: nat, closes: set<char>)
  {
    from <= k < |s| && s[k] in closes && forall m :: from <= m < k ==> !IsLineTerminator(s[m])
  }

  /** The first closing character at or after `from`, unless a line terminator comes first. */
  function CloseFrom(s: string, from: nat, closes: set<char>): (r: Option<nat>)
    requires from <= |s|
    decreases |s| - from
    ensures r.Some? ==> from <= r.value < |s|
  {
    if from == |s| then None
    else if s[from] in closes then Some(from)
    else if IsLineTerminator(s[from]) then None
    else CloseFrom(s, from + 1, closes)
  }

  /** The scan finds the first place where the lazy group can stop, and finds nothing when
      there is no such place. */
  lemma {:induction false} CloseFromSpec(s: string, from: nat, closes: set<char>)
    requires from <= |s|
    decreases |s| - from
    ensures var r := CloseFrom(s, from, closes);
      && (r.Some? ==> ReachesClose(s, from, r.value, closes))
      && (r.Some? ==> forall m :: from <= m < r.value ==> s[m] !in closes)
      && (r.None? ==> forall k :: !ReachesClose(s, from, k, closes))
  {
    if from < |s| && s[from] !in closes {
      if IsLineTerminator(s[from]) {
        assert forall k: nat :: ReachesClose(s, from, k, closes) && k > from ==> !IsLineTerminator(s[from]);
      } else {
        CloseFromSpec(s, from + 1, closes);
        assert forall k: nat :: ReachesClose(s, from, k, closes) && k != from ==> ReachesClose(s, from + 1, k, closes);
      }
    }
  }

  /** The scan stops at the first closing character when nothing before it ends the line. */
  lemma {:induction false} CloseFromAt(s: string, from: nat, k: nat, closes: set<char>)
    requires ReachesClose(s, from, k, closes)
    requires forall m :: from <= m < k ==> s[m] !in closes
    decreases k - from
    ensures CloseFrom(s, from, closes) == Some(k)
  {
    if from < k {
      CloseFromAt(s, from + 1, k, closes);
    }
  }

  /** The match of `/O(.*?)[C]/` where `O` is `open` and `[C]` is `closes`: the leftmost
      `open` from which a closing character is reached, and the first such close after it.
      The result is the positions of the opening and the closing character. */
  function LazyMatch(s: string, from: nat, open: char, closes: set<char>): (r: Option<(nat, nat)>)
    requires from <= |s|
    decreases |s| - from
    ensures r.Some? ==> from <= r.value.0 < r.value.1 < |s| && s[r.value.0] == open
  {
    if from == |s| then None
    else if s[from] == open && CloseFrom(s, from + 1, closes).Some? then
      Some((from, CloseFrom(s, from + 1, closes).value))
    else LazyMatch(s, from + 1, open, closes)
  }

  /** The match is leftmost: no earlier `open` reaches a close, and the capture ends at the
      first close after the chosen `open`. */
  lemma {:induction false} LazyMatchSpec(s: string, from: nat, open: char, closes: set<char>)
    requires from <= |s|
    decreases |s| - from
    ensures var r := LazyMatch(s, from, open, closes);
      && (r.Some? ==> CloseFrom(s, r.value.0 + 1, closes) == Some(r.value.1))
      && (r.Some? ==> forall i :: from <= i < r.value.0 && s[i] == open ==> CloseFrom(s, i + 1, closes).None?)
      && (r.None? ==> forall i :: from <= i < |s| && s[i] == open ==> CloseFrom(s, i + 1, closes).None?)
  {
    if from < |s| && !(s[from] == open && CloseFrom(s, from + 1, closes).Some?) {
      LazyMatchSpec(s, from + 1, open, closes);
    }
  }

  /** The text captured by `/O(.*?)[C]/`, or `None` when the expression does not match. */
  function LazyCapture(s: string, open: char, closes: set<char>): (r: Option<string>)
    ensures r.Some? ==> |r.value| < |s|
  {
    match LazyMatch(s, 0, open, closes)
    case None => None
    case Some((i, k)) => Some(s[i + 1..k])
  }

  /** The capture holds neither a closing character nor a line terminator. */
  lemma LazyCaptureChars(s: string, open: char, closes: set<char>)
    ensures var r := LazyCapture(s, open, closes);
      r.Some? ==> forall c :: c in r.value ==> c !in closes && !IsLineTerminator(c)
  {
    LazyMatchSpec(s, 0, open, closes);
    var m := LazyMatch(s, 0, open, closes);
    if m.Some? {
      var (i, k) := m.value;
      CloseFromSpec(s, i + 1, closes);
      var cap := s[i + 1..k];
      assert forall j :: 0 <= j < |cap| ==> cap[j] == s[i + 1 + j];
    }
  }

  /** Positions holding no `open` are passed over by the match. */
  lemma {:induction false} LazyMatchSkip(s: string, from: nat, k: nat, open: char, closes: set<char>)
    requires from <= k <= |s|
    requires forall m :: from <= m < k ==> s[m] != open
    decreases k - from
    ensures LazyMatch(s, from, open, closes) == LazyMatch(s, k, open, closes)
  {
    if from < k {
      LazyMatchSkip(s, from + 1, k, open, closes);
    }
  }

  /** The first `open` of a text captures everything up to the next closing character,
      when no line ends before it. */
  lemma LazyCaptureAfter(prefix: string, open: char, body: string, close: char, rest: string, closes: set<char>)
    requires open !in prefix && close in closes
    requires forall c :: c in body ==> c !in closes && !IsLineTerminator(c)
    ensures LazyCapture(prefix + [open] + body + [close] + rest, open, closes) == Some(body)
  {
    var s := prefix + [open] + body + [close] + rest;
    var p := |prefix|;
    var k := p + |body| + 1;
    assert forall m :: 0 <= m < p ==> s[m] == prefix[m];
    LazyMatchSkip(s, 0, p, open, closes);
    assert forall m :: p + 1 <= m < k ==> s[m] == body[m - p - 1];
    CloseFromAt(s, p + 1, k, closes);
    assert s[p + 1..k] == body;
  }

  /** A text that opens with `open` captures everything up to the first closing character,
      when no line ends before it. */
  lemma LazyCaptureFront(open: char, body: string, close: char, rest: string, closes: set<char>)
    requires close in closes
    requires forall c :: c in body ==> c !in closes && !IsLineTerminator(c)
    ensures LazyCapture([open] + body + [close] + rest, open, closes) == Some(body)
  {
    var s := [open] + body + [close] + rest;
    var k := |body| + 1;
    assert forall m :: 1 <= m < k ==> s[m] == body[m - 1];
    CloseFromAt(s, 1, k, closes);
    assert s[1..k] == body;
  }
}
