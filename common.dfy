/** Python string primitives used by the contract services, stated over `string` (= seq<char>),
    with the facts about them that the service modules need. */
module Common {

  datatype Option<T> = None | Some(value: T)

  /** A raised Python exception is modelled as `Err` carrying its message. */
  datatype Result<T> = Ok(value: T) | Err(message: string)

  /** Python truthiness of an optional string: present and non-empty. */
  predicate Truthy(v: Option<string>)
  {
    v.Some? && v.value != ""
  }

  // ------------------------------------------------------------------------------------------
  // Substrings
  // ------------------------------------------------------------------------------------------

  /** `s.startswith(p)` */
  predicate StartsWith(s: string, p: string)
  {
    |p| <= |s| && s[..|p|] == p
  }

  /** `s.endswith(p)` */
  predicate EndsWith(s: string, p: string)
  {
    |p| <= |s| && s[|s| - |p|..] == p
  }

  /** `p in s` */
  predicate Contains(s: string, p: string)
    decreases |s|
  {
    StartsWith(s, p) || (|s| > 0 && Contains(s[1..], p))
  }

  predicate OccursAt(s: string, p: string, i: nat)
  {
    i + |p| <= |s| && s[i..i + |p|] == p
  }

  lemma {:induction false} OccursAtContains(s: string, p: string, i: nat)
    requires OccursAt(s, p, i)
    ensures Contains(s, p)
    decreases i
  {
    if i > 0 {
      assert s[1..][i - 1..i - 1 + |p|] == s[i..i + |p|];
      OccursAtContains(s[1..], p, i - 1);
    }
  }

  lemma {:induction false} ContainsOccurs(s: string, p: string) returns (i: nat)
    requires Contains(s, p)
    ensures OccursAt(s, p, i)
    decreases |s|
  {
    if StartsWith(s, p) {
      i := 0;
    } else {
      var j := ContainsOccurs(s[1..], p);
      assert s[1..][j..j + |p|] == s[j + 1..j + 1 + |p|];
      i := j + 1;
    }
  }

  lemma ContainsLength(s: string, p: string)
    requires Contains(s, p)
    ensures |p| <= |s|
  {
    var i := ContainsOccurs(s, p);
  }

  /** An occurrence inside a slice is an occurrence in the whole string. */
  lemma ContainsSlice(s: string, lo: nat, hi: nat, p: string)
    requires lo <= hi <= |s|
    requires Contains(s[lo..hi], p)
    ensures Contains(s, p)
  {
    var t := s[lo..hi];
    var i := ContainsOccurs(t, p);
    forall k | 0 <= k < |p| ensures s[lo + i + k] == p[k] {
      assert t[i..i + |p|][k] == t[i + k] == s[lo + i + k];
    }
    assert s[lo + i..lo + i + |p|] == p;
    OccursAtContains(s, p, lo + i);
  }

  lemma ContainsConcatLeft(a: string, b: string, p: string)
    requires Contains(a, p)
    ensures Contains(a + b, p)
  {
    assert (a + b)[0..|a|] == a;
    ContainsSlice(a + b, 0, |a|, p);
  }

  lemma ContainsConcatRight(a: string, b: string, p: string)
    requires Contains(b, p)
    ensures Contains(a + b, p)
  {
    assert (a + b)[|a|..|a + b|] == b;
    ContainsSlice(a + b, |a|, |a + b|, p);
  }

  /** An occurrence of `q` in `a + b` cannot start inside `a` when `a` lacks `q`'s first character. */
  lemma {:induction false} ContainsSkip(a: string, b: string, q: string)
    requires |q| > 0 && q[0] !in a
    requires Contains(a + b, q)
    ensures Contains(b, q)
    decreases |a|
  {
    if |a| > 0 {
      assert (a + b)[0] == a[0];
      assert (a + b)[1..] == a[1..] + b;
      ContainsSkip(a[1..], b, q);
    } else {
      assert a + b == b;
    }
  }

  /** A single character is contained exactly when it is a member. */
  lemma ContainsChar(s: string, c: char)
    ensures Contains(s, [c]) <==> c in s
  {
    if Contains(s, [c]) {
      var i := ContainsOccurs(s, [c]);
      assert s[i] == s[i..i + 1][0];
    }
    if c in s {
      var i :| 0 <= i < |s| && s[i] == c;
      assert s[i..i + 1] == [c];
      OccursAtContains(s, [c], i);
    }
  }

  // ------------------------------------------------------------------------------------------
  // str.replace
  // ------------------------------------------------------------------------------------------

  /** `s.replace(p, v)` for a non-empty `p`: leftmost, non-overlapping occurrences, scanning left
      to right, every one replaced. */
  function ReplaceAll(s: string, p: string, v: string): string
    requires |p| > 0
    decreases |s|
  {
    if |s| < |p| then s
    else if s[..|p|] == p then v + ReplaceAll(s[|p|..], p, v)
    else [s[0]] + ReplaceAll(s[1..], p, v)
  }

  /** Replacing a pattern that does not occur changes nothing. */
  lemma {:induction false} ReplaceAbsent(s: string, p: string, v: string)
    requires |p| > 0 && !Contains(s, p)
    ensures ReplaceAll(s, p, v) == s
    decreases |s|
  {
    if |s| >= |p| {
      ReplaceAbsent(s[1..], p, v);
      assert [s[0]] + s[1..] == s;
    }
  }

  predicate BracketFree(s: string)
  {
    '[' !in s && ']' !in s
  }

  /** A bracketed placeholder: '[' + label + ']' with no bracket in the label. */
  predicate IsPlaceholder(q: string)
  {
    |q| >= 2 && q[0] == '[' && q[|q| - 1] == ']' && BracketFree(q[1..|q| - 1])
  }

  /** A substitution value that cannot combine with surrounding text into the placeholder `q`:
      non-empty, without brackets, and not itself a piece of `q`. */
  predicate SafeValue(v: string, q: string)
  {
    |v| > 0 && BracketFree(v) && !Contains(q, v)
  }

  lemma {:induction false} ContainsDropLast(s: string, v: string)
    requires |s| > 0 && Contains(s[..|s| - 1], v)
    ensures Contains(s, v)
  {
    ContainsSlice(s, 0, |s| - 1, v);
  }

  /** A non-empty value opening a text that starts with `w + "]"` either occurs in `w` or holds
      a closing bracket. */
  lemma SafeValueNotAtFront(v: string, x: string, w: string)
    requires StartsWith(v + x, w + "]")
    ensures |v| > 0 ==> Contains(w, v) || ']' in v
  {
    var r := v + x;
    if |v| <= |w| {
      assert r[..|v|] == v;
      assert w[..|v|] == (w + "]")[..|v|] == r[..|v|];
      assert StartsWith(w, v);
    } else {
      assert (w + "]")[|w|] == ']' && (v + x)[|w|] == v[|w|];
    }
  }

  /** If the replacement output starts with `w + "]"`, the input did too (w a piece of a label
      in which the safe value does not occur). */
  lemma {:induction false} ReplacePrefixPullback(t: string, p: string, v: string, w: string)
    requires |p| > 0 && |v| > 0 && BracketFree(v) && BracketFree(w) && !Contains(w, v)
    requires StartsWith(ReplaceAll(t, p, v), w + "]")
    ensures StartsWith(t, w + "]")
    decreases |t|
  {
    var r := ReplaceAll(t, p, v);
    if |t| < |p| {
    } else if t[..|p|] == p {
      assert r == v + ReplaceAll(t[|p|..], p, v);
      SafeValueNotAtFront(v, ReplaceAll(t[|p|..], p, v), w);
      assert false;
    } else {
      var r1 := ReplaceAll(t[1..], p, v);
      assert r == [t[0]] + r1;
      if |w| == 0 {
        assert r[0] == ']';
      } else {
        assert t[0] == r[0] == w[0];
        assert r1[..|w[1..] + "]"|] == r[1..|w + "]"|];
        assert (w + "]")[1..] == w[1..] + "]";
        ReplacePrefixPullback(t[1..], p, v, w[1..]);
        assert t[..|w + "]"|] == [t[0]] + t[1..][..|w[1..] + "]"|];
      }
    }
  }

  /** Replacing the placeholder `p` by a value safe for the placeholder `q` leaves no occurrence
      of `q`, provided `q` is `p` itself or did not occur before. */
  lemma {:induction false} ReplaceLeavesNoPlaceholder(s: string, p: string, v: string, q: string)
    requires IsPlaceholder(p) && IsPlaceholder(q) && SafeValue(v, q)
    requires q == p || !Contains(s, q)
    ensures !Contains(ReplaceAll(s, p, v), q)
    decreases |s|
  {
    var r := ReplaceAll(s, p, v);
    if |s| < |p| {
      if Contains(r, q) {
        ContainsLength(r, q);
      }
    } else if s[..|p|] == p {
      var rest := s[|p|..];
      if q != p && Contains(rest, q) {
        assert rest == s[|p|..|s|];
        ContainsSlice(s, |p|, |s|, q);
      }
      ReplaceLeavesNoPlaceholder(rest, p, v, q);
      if Contains(r, q) {
        ContainsSkip(v, ReplaceAll(rest, p, v), q);
      }
    } else {
      var r1 := ReplaceAll(s[1..], p, v);
      assert r == [s[0]] + r1;
      ReplaceLeavesNoPlaceholder(s[1..], p, v, q);
      if StartsWith(r, q) {
        CopyStepKeepsFront(s, p, v, q);
      }
      assert r[1..] == r1;
    }
  }

  /** In a copying step of the scan, an occurrence of the placeholder `q` at the front of the
      output was already at the front of the input. */
  lemma CopyStepKeepsFront(s: string, p: string, v: string, q: string)
    requires |p| > 0 && |s| >= 1 && IsPlaceholder(q) && SafeValue(v, q)
    requires StartsWith([s[0]] + ReplaceAll(s[1..], p, v), q)
    ensures StartsWith(s, q)
  {
    var r1 := ReplaceAll(s[1..], p, v);
    var w := q[1..|q| - 1];
    assert q[1..] == w + "]";
    assert r1[..|w + "]"|] == ([s[0]] + r1)[1..|q|];
    if Contains(w, v) {
      ContainsSlice(q, 1, |q| - 1, v);
    }
    ReplacePrefixPullback(s[1..], p, v, w);
    assert s[..|q|] == [s[0]] + s[1..][..|w + "]"|];
  }

  // ------------------------------------------------------------------------------------------
  // Case, whitespace, joins
  // ------------------------------------------------------------------------------------------

  /** Python's `str.isspace` on the characters a spreadsheet or document can carry. */
  predicate IsSpace(c: char)
  {
    c == ' ' || c == '\t' || c == '\n' || c == '\r' || c == '\U{B}' || c == '\U{C}'
    || ('\U{1C}' <= c <= '\U{1F}') || c == '\U{85}' || c == '\U{A0}' || c == '\U{1680}'
    || ('\U{2000}' <= c <= '\U{200A}') || c == '\U{2028}' || c == '\U{2029}'
    || c == '\U{202F}' || c == '\U{205F}' || c == '\U{3000}'
  }

  function StripLeft(s: string): (r: string)
    ensures |r| <= |s| && r == s[|s| - |r|..]
    ensures |r| > 0 ==> !IsSpace(r[0])
    ensures forall k :: 0 <= k < |s| - |r| ==> IsSpace(s[k])
    decreases |s|
  {
    if |s| > 0 && IsSpace(s[0]) then StripLeft(s[1..]) else s
  }

  function StripRight(s: string): (r: string)
    ensures |r| <= |s| && r == s[..|r|]
    ensures |r| > 0 ==> !IsSpace(r[|r| - 1])
    ensures forall k :: |r| <= k < |s| ==> IsSpace(s[k])
    decreases |s|
  {
    if |s| > 0 && IsSpace(s[|s| - 1]) then StripRight(s[..|s| - 1]) else s
  }

  /** `s.strip()` */
  function Strip(s: string): string
  {
    StripLeft(StripRight(s))
  }

  /** `s.strip()` is the infix of `s` between its leading and trailing whitespace. */
  lemma StripIsInfix(s: string) returns (lo: nat)
    ensures lo + |Strip(s)| <= |s| && Strip(s) == s[lo..lo + |Strip(s)|]
    ensures |Strip(s)| > 0 ==> !IsSpace(Strip(s)[0]) && !IsSpace(Strip(s)[|Strip(s)| - 1])
    ensures forall k :: 0 <= k < lo ==> IsSpace(s[k])
    ensures forall k :: lo + |Strip(s)| <= k < |s| ==> IsSpace(s[k])
  {
    var rr := StripRight(s);
    var r := StripLeft(rr);
    assert r == Strip(s);
    lo := |rr| - |r|;
    assert rr == s[..|rr|] && r == rr[lo..];
    assert r == s[lo..lo + |r|];
    assert forall k :: 0 <= k < lo ==> s[k] == rr[k] && IsSpace(rr[k]);
  }

  /** A string that neither starts nor ends with whitespace is its own `strip()`. */
  lemma StripUnchanged(s: string)
    requires |s| > 0 && !IsSpace(s[0]) && !IsSpace(s[|s| - 1])
    ensures Strip(s) == s
  {
    assert StripRight(s) == s;
  }

  /** `s.strip() == ''` exactly when `s` is made of whitespace only. */
  lemma StripEmptyIffBlank(s: string)
    ensures Strip(s) == "" <==> forall k :: 0 <= k < |s| ==> IsSpace(s[k])
  {
    var lo := StripIsInfix(s);
    if Strip(s) != "" {
      assert !IsSpace(s[lo]);
    }
  }

  /** Python's `str.lower` on ASCII and Latin-1 letters (the accented Portuguese capitals). */
  function LowerChar(c: char): char
  {
    if 'A' <= c <= 'Z' then (c as int + 32) as char
    else if '\U{C0}' <= c <= '\U{DE}' && c != '\U{D7}' then (c as int + 32) as char
    else c
  }

  function Lower(s: string): (r: string)
    ensures |r| == |s| && forall k :: 0 <= k < |s| ==> r[k] == LowerChar(s[k])
  {
    seq(|s|, k requires 0 <= k < |s| => LowerChar(s[k]))
  }

  /** `sep.join(xs)` */
  function Join(sep: string, xs: seq<string>): string
  {
    if |xs| == 0 then ""
    else if |xs| == 1 then xs[0]
    else xs[0] + sep + Join(sep, xs[1..])
  }

  /** `s.split(c)` for a single separator character. */
  function Split(s: string, c: char): (r: seq<string>)
    ensures |r| > 0
    decreases |s|
  {
    if |s| == 0 then [""]
    else
      var rest := Split(s[1..], c);
      if s[0] == c then [""] + rest else [[s[0]] + rest[0]] + rest[1..]
  }

  lemma {:induction false} SplitNoSeparator(a: string, c: char, b: string)
    requires c !in a
    ensures Split(a + [c] + b, c) == [a] + Split(b, c)
    ensures Split(a, c) == [a]
    decreases |a|
  {
    if |a| == 0 {
      assert a + [c] + b == [c] + b;
      assert ([c] + b)[1..] == b;
    } else {
      assert (a + [c] + b)[1..] == a[1..] + [c] + b;
      SplitNoSeparator(a[1..], c, b);
      assert [a[0]] + a[1..] == a;
    }
  }

  /** Splitting the joined lines gives the lines back when none holds the separator. */
  lemma {:induction false} SplitJoin(xs: seq<string>, c: char)
    requires |xs| > 0
    requires forall i :: 0 <= i < |xs| ==> c !in xs[i]
    ensures Split(Join([c], xs), c) == xs
    decreases |xs|
  {
    if |xs| == 1 {
      SplitNoSeparator(xs[0], c, "");
    } else {
      SplitJoin(xs[1..], c);
      SplitNoSeparator(xs[0], c, Join([c], xs[1..]));
      assert [xs[0]] + xs[1..] == xs;
    }
  }

  // ------------------------------------------------------------------------------------------
  // Character filters and numbers
  // ------------------------------------------------------------------------------------------

  predicate IsDigit(c: char)
  {
    '0' <= c <= '9'
  }

  /** `''.join(filter(str.isdigit, s))` on ASCII digits. */
  function Digits(s: string): (r: string)
    ensures forall k :: 0 <= k < |r| ==> IsDigit(r[k])
    ensures |r| <= |s|
  {
    if |s| == 0 then ""
    else if IsDigit(s[0]) then [s[0]] + Digits(s[1..])
    else Digits(s[1..])
  }

  /** The digit filter distributes over concatenation. */
  lemma {:induction false} DigitsConcat(a: string, b: string)
    ensures Digits(a + b) == Digits(a) + Digits(b)
    decreases |a|
  {
    if |a| == 0 {
      assert a + b == b;
    } else {
      assert (a + b)[0] == a[0] && (a + b)[1..] == a[1..] + b;
      DigitsConcat(a[1..], b);
    }
  }

  /** A text made only of digits is its own digit form. */
  lemma {:induction false} DigitsOfDigits(s: string)
    requires forall k :: 0 <= k < |s| ==> IsDigit(s[k])
    ensures Digits(s) == s
    decreases |s|
  {
    if |s| > 0 {
      DigitsOfDigits(s[1..]);
      assert [s[0]] + s[1..] == s;
    }
  }

  /** A text without digits has the empty digit form. */
  lemma {:induction false} DigitsOfNoDigits(s: string)
    requires forall k :: 0 <= k < |s| ==> !IsDigit(s[k])
    ensures Digits(s) == ""
    decreases |s|
  {
    if |s| > 0 {
      DigitsOfNoDigits(s[1..]);
    }
  }

  /** Separators without digits, inserted anywhere, do not change the digit form: a CNPJ
      written as "12.345.678/0001-90" has the digit form of "12345678000190". */
  lemma SeparatorIgnored(a: string, sep: string, b: string)
    requires forall k :: 0 <= k < |sep| ==> !IsDigit(sep[k])
    ensures Digits(a + sep + b) == Digits(a + b)
  {
    DigitsConcat(a + sep, b);
    DigitsConcat(a, sep);
    DigitsOfNoDigits(sep);
    DigitsConcat(a, b);
  }

  /** Removes every character of `cs` from `s`, keeping the others in order. */
  function RemoveChars(s: string, cs: set<char>): (r: string)
    ensures forall k :: 0 <= k < |r| ==> r[k] !in cs && r[k] in s
    ensures |r| <= |s|
  {
    if |s| == 0 then ""
    else if s[0] in cs then RemoveChars(s[1..], cs)
    else [s[0]] + RemoveChars(s[1..], cs)
  }

  /** Removal distributes over concatenation. */
  lemma {:induction false} RemoveCharsConcat(a: string, b: string, cs: set<char>)
    ensures RemoveChars(a + b, cs) == RemoveChars(a, cs) + RemoveChars(b, cs)
    decreases |a|
  {
    if |a| == 0 {
      assert a + b == b;
    } else {
      assert (a + b)[0] == a[0] && (a + b)[1..] == a[1..] + b;
      RemoveCharsConcat(a[1..], b, cs);
    }
  }

  /** A text with none of the characters is kept whole. */
  lemma {:induction false} RemoveCharsKeeps(s: string, cs: set<char>)
    requires forall k :: 0 <= k < |s| ==> s[k] !in cs
    ensures RemoveChars(s, cs) == s
    decreases |s|
  {
    if |s| > 0 {
      RemoveCharsKeeps(s[1..], cs);
      assert [s[0]] + s[1..] == s;
    }
  }

  /** `s.replace(c, '')` for one character `c` removes exactly that character. */
  lemma {:induction false} ReplaceCharByEmpty(s: string, c: char)
    ensures ReplaceAll(s, [c], "") == RemoveChars(s, {c})
    decreases |s|
  {
    if |s| > 0 {
      ReplaceCharByEmpty(s[1..], c);
    }
  }

  /** Removing `a` and then `b` removes `a + b`. */
  lemma {:induction false} RemoveCharsTwice(s: string, a: set<char>, b: set<char>)
    ensures RemoveChars(RemoveChars(s, a), b) == RemoveChars(s, a + b)
    decreases |s|
  {
    if |s| > 0 {
      RemoveCharsTwice(s[1..], a, b);
      if s[0] !in a {
        assert RemoveChars(s, a) == [s[0]] + RemoveChars(s[1..], a);
        assert RemoveChars(s, a)[1..] == RemoveChars(s[1..], a);
      }
    }
  }

  /** The chain `s.replace(c1, '').replace(c2, '').replace(c3, '')` removes the three characters. */
  lemma ReplaceChainRemoves(s: string, c1: char, c2: char, c3: char)
    ensures ReplaceAll(ReplaceAll(ReplaceAll(s, [c1], ""), [c2], ""), [c3], "") == RemoveChars(s, {c1, c2, c3})
  {
    ReplaceCharByEmpty(s, c1);
    var s1 := RemoveChars(s, {c1});
    ReplaceCharByEmpty(s1, c2);
    RemoveCharsTwice(s, {c1}, {c2});
    var s2 := RemoveChars(s, {c1} + {c2});
    ReplaceCharByEmpty(s2, c3);
    RemoveCharsTwice(s, {c1} + {c2}, {c3});
    assert {c1} + {c2} + {c3} == {c1, c2, c3};
  }

  /** Every number below 10^k is written with at most k digits (k >= 1, as 0 is written "0"). */
  lemma {:induction false} NatToStringLength(n: nat, k: nat)
    requires k > 0 && n < Pow10(k)
    ensures |NatToString(n)| <= k
    decreases k
  {
    if n >= 10 {
      NatToStringLength(n / 10, k - 1);
    }
  }

  function Pow10(k: nat): nat
  {
    if k == 0 then 1 else 10 * Pow10(k - 1)
  }

  /** `str(n)` for a natural number. */
  function NatToString(n: nat): (r: string)
    ensures |r| > 0 && forall k :: 0 <= k < |r| ==> IsDigit(r[k])
  {
    var d := ['0' + (n % 10) as char];
    if n < 10 then d else NatToString(n / 10) + d
  }

  // ------------------------------------------------------------------------------------------
  // Code-point order on strings and `sorted`
  // ------------------------------------------------------------------------------------------

  /** Python's `<` on strings: lexicographic on code points. */
  predicate Less(a: string, b: string)
    decreases |a|
  {
    if |a| == 0 then |b| > 0
    else if |b| == 0 then false
    else if a[0] != b[0] then a[0] < b[0]
    else Less(a[1..], b[1..])
  }

  lemma {:induction false} LessIrreflexive(a: string)
    ensures !Less(a, a)
    decreases |a|
  {
    if |a| > 0 { LessIrreflexive(a[1..]); }
  }

  lemma {:induction false} LessTransitive(a: string, b: string, c: string)
    requires Less(a, b) && Less(b, c)
    ensures Less(a, c)
    decreases |a|
  {
    if |a| > 0 && |b| > 0 && |c| > 0 && a[0] == b[0] == c[0] {
      LessTransitive(a[1..], b[1..], c[1..]);
    }
  }

  lemma {:induction false} LessTotal(a: string, b: string)
    requires a != b
    ensures Less(a, b) || Less(b, a)
    decreases |a|
  {
    if |a| > 0 && |b| > 0 && a[0] == b[0] {
      assert a == [a[0]] + a[1..] && b == [b[0]] + b[1..];
      LessTotal(a[1..], b[1..]);
    }
  }

  predicate StrictlySorted(r: seq<string>)
  {
    forall i, j :: 0 <= i < j < |r| ==> Less(r[i], r[j])
  }

  /** Inserts `x` at its place in a strictly sorted list that does not hold it yet. */
  method InsertSorted(r: seq<string>, x: string) returns (out: seq<string>)
    requires StrictlySorted(r) && x !in r
    ensures StrictlySorted(out) && |out| == |r| + 1
    ensures forall y :: y in out <==> y in r || y == x
  {
    var k := 0;
    while k < |r| && Less(r[k], x)
      invariant 0 <= k <= |r|
      invariant forall i :: 0 <= i < k ==> Less(r[i], x)
    {
      k := k + 1;
    }
    out := r[..k] + [x] + r[k..];
    forall i, j | 0 <= i < j < |out| ensures Less(out[i], out[j]) {
      if j == k {
        assert out[i] == r[i];
      } else if i == k {
        assert out[j] == r[j - 1];
        assert r[k] != x;
        LessTotal(r[k], x);
        if j - 1 > k {
          LessTransitive(x, r[k], r[j - 1]);
        }
      } else {
        var i' := if i < k then i else i - 1;
        var j' := if j < k then j else j - 1;
        assert out[i] == r[i'] && out[j] == r[j'];
      }
    }
    assert forall y :: y in r <==> y in r[..k] || y in r[k..] by {
      assert r == r[..k] + r[k..];
    }
  }

  /** `sorted(s)` for a set of strings: every element once, in ascending order. */
  method SortedList(s: set<string>) returns (r: seq<string>)
    ensures StrictlySorted(r)
    ensures forall y :: y in r <==> y in s
    ensures |r| == |s|
  {
    r := [];
    var rest := s;
    while rest != {}
      invariant StrictlySorted(r)
      invariant rest <= s
      invariant forall y :: y in r <==> y in s && y !in rest
      invariant |r| + |rest| == |s|
      decreases |rest|
    {
      var x :| x in rest;
      r := InsertSorted(r, x);
      rest := rest - {x};
    }
  }

  /** The index of the first element satisfying `p`. */
  function FirstWhere<T>(xs: seq<T>, p: T -> bool): (r: Option<nat>)
    ensures r.Some? ==> r.value < |xs| && p(xs[r.value]) && forall j :: 0 <= j < r.value ==> !p(xs[j])
    ensures r.None? ==> forall j :: 0 <= j < |xs| ==> !p(xs[j])
    decreases |xs|
  {
    if |xs| == 0 then None
    else if p(xs[0]) then Some(0)
    else
      match FirstWhere(xs[1..], p)
      case None => None
      case Some(i) => Some(i + 1)
  }

  /** An index whose element satisfies `p`, with none before it, is the first. */
  lemma {:induction false} FirstWhereAt<T>(xs: seq<T>, p: T -> bool, i: nat)
    requires i < |xs| && p(xs[i]) && forall j :: 0 <= j < i ==> !p(xs[j])
    ensures FirstWhere(xs, p) == Some(i)
    decreases i
  {
    if i > 0 {
      assert !p(xs[0]);
      assert xs[1..][i - 1] == xs[i];
      forall j | 0 <= j < i - 1 ensures !p(xs[1..][j]) {
        assert xs[1..][j] == xs[j + 1];
      }
      FirstWhereAt(xs[1..], p, i - 1);
    }
  }
}
