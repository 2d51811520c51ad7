/**
 * The string operations the program relies on, with Python's semantics:
 * `str.replace`, `str.split`, `','.join` and Python 2's `int(str)`.
 */
module Text {
  import opened Wrappers

  /** `s.replace(c, '')` for a one-character `c`. */
  function RemoveChar(s: string, c: char): (r: string)
    ensures c !in r
    ensures c !in s ==> r == s
  {
    if s == [] then []
    else if s[0] == c then RemoveChar(s[1..], c)
    else [s[0]] + RemoveChar(s[1..], c)
  }

  /** Exactly the occurrences of `c` are removed. */
  lemma {:induction false} RemoveCharLength(s: string, c: char)
    ensures |RemoveChar(s, c)| == |s| - multiset(s)[c]
  {
    if s != [] {
      RemoveCharLength(s[1..], c);
      assert s == [s[0]] + s[1..];
    }
  }

  /** Every other character of `s` survives, and nothing new appears. */
  lemma {:induction false} RemoveCharKeepsOthers(s: string, c: char)
    ensures forall ch :: ch in s && ch != c ==> ch in RemoveChar(s, c)
    ensures forall ch :: ch in RemoveChar(s, c) ==> ch in s
  {
    if s != [] {
      RemoveCharKeepsOthers(s[1..], c);
      assert s == [s[0]] + s[1..];
    }
  }

  /** Removal works piece by piece, so the surviving characters keep their order. */
  lemma {:induction false} RemoveCharAppend(a: string, b: string, c: char)
    ensures RemoveChar(a + b, c) == RemoveChar(a, c) + RemoveChar(b, c)
  {
    if a == [] {
      assert a + b == b;
    } else {
      RemoveCharAppend(a[1..], b, c);
      assert (a + b)[0] == a[0] && (a + b)[1..] == a[1..] + b;
      if a[0] != c {
        var x, y := RemoveChar(a[1..], c), RemoveChar(b, c);
        assert [a[0]] + (x + y) == [a[0]] + x + y;
      }
    }
  }

  /** One character is dropped when it is `c` and kept otherwise. */
  lemma RemoveCharSingle(ch: char, c: char)
    ensures RemoveChar([ch], c) == if ch == c then [] else [ch]
  {
    assert [ch][1..] == [];
  }

  /** `s.split(sep)`: the empty string gives `['']`, adjacent separators give empty tokens. */
  function Split(s: string, sep: char): (r: seq<string>)
    ensures |r| >= 1
    ensures forall k :: 0 <= k < |r| ==> sep !in r[k]
    ensures forall k, ch :: 0 <= k < |r| && ch in r[k] ==> ch in s
  {
    if s == [] then [""]
    else
      var rest := Split(s[1..], sep);
      assert forall ch :: ch in s[1..] ==> ch in s;
      if s[0] == sep then [""] + rest
      else [[s[0]] + rest[0]] + rest[1..]
  }

  /** `sep.join(parts)` for a non-empty list. */
  function Join(parts: seq<string>, sep: char): string
    requires |parts| >= 1
  {
    if |parts| == 1 then parts[0]
    else parts[0] + [sep] + Join(parts[1..], sep)
  }

  /** Joining the tokens of a split gives back the string. */
  lemma {:induction false} JoinSplit(s: string, sep: char)
    ensures Join(Split(s, sep), sep) == s
  {
    if s != [] {
      JoinSplit(s[1..], sep);
      var rest := Split(s[1..], sep);
      if s[0] != sep {
        if |rest| == 1 {
          assert Split(s, sep) == [[s[0]] + rest[0]];
        } else {
          assert Split(s, sep)[1..] == rest[1..];
          assert rest == [rest[0]] + rest[1..];
        }
      }
    }
  }

  /** Splitting a join of separator-free tokens gives back the tokens. */
  lemma {:induction false} SplitJoin(parts: seq<string>, sep: char)
    requires |parts| >= 1
    requires forall k :: 0 <= k < |parts| ==> sep !in parts[k]
    ensures Split(Join(parts, sep), sep) == parts
  {
    if |parts| == 1 {
      SplitNoSeparator(parts[0], sep);
    } else {
      SplitJoin(parts[1..], sep);
      SplitAfterToken(parts[0], Join(parts[1..], sep), sep);
      assert Join(parts, sep) == parts[0] + ([sep] + Join(parts[1..], sep));
      assert [parts[0]] + parts[1..] == parts;
    }
  }

  lemma {:induction false} SplitNoSeparator(t: string, sep: char)
    requires sep !in t
    ensures Split(t, sep) == [t]
  {
    if t != [] {
      SplitNoSeparator(t[1..], sep);
      assert [t[0]] + t[1..] == t;
    }
  }

  /** A separator-free token followed by a separator contributes exactly that token. */
  lemma {:induction false} SplitAfterToken(t: string, rest: string, sep: char)
    requires sep !in t
    ensures Split(t + [sep] + rest, sep) == [t] + Split(rest, sep)
  {
    if t == [] {
      assert t + [sep] + rest == [sep] + rest;
      assert ([sep] + rest)[1..] == rest;
    } else {
      SplitAfterToken(t[1..], rest, sep);
      var s := t + [sep] + rest;
      assert s[0] == t[0];
      assert s[1..] == t[1..] + [sep] + rest;
      var tail := Split(s[1..], sep);
      assert tail == [t[1..]] + Split(rest, sep);
      assert [t[0]] + t[1..] == t;
    }
  }

  /** `pat` occurs somewhere in `s`. */
  predicate Occurs(pat: string, s: string) {
    pat <= s || (s != [] && Occurs(pat, s[1..]))
  }

  /** A pattern with a character the text lacks does not occur in it. */
  lemma {:induction false} OccursChar(pat: string, s: string, ch: char)
    requires ch in pat && ch !in s
    ensures !Occurs(pat, s)
  {
    if s != [] {
      assert ch !in s[1..] by {
        assert forall k :: 0 <= k < |s[1..]| ==> s[1..][k] == s[k + 1];
      }
      OccursChar(pat, s[1..], ch);
    }
  }

  /** A pattern with a character the text lacks is not replaced in it. */
  lemma ReplaceAbsentChar(s: string, pat: string, rep: string, ch: char)
    requires |pat| > 0 && ch in pat && ch !in s
    ensures Replace(s, pat, rep) == s
  {
    OccursChar(pat, s, ch);
    ReplaceAbsent(s, pat, rep);
  }

  /** `s.replace(pat, rep)`: every non-overlapping occurrence, scanning left to right. */
  function Replace(s: string, pat: string, rep: string): string
    requires |pat| > 0
    decreases |s|
  {
    if s == [] then []
    else if pat <= s then rep + Replace(s[|pat|..], pat, rep)
    else [s[0]] + Replace(s[1..], pat, rep)
  }

  /** A template that does not contain the token is left unchanged. */
  lemma {:induction false} ReplaceAbsent(s: string, pat: string, rep: string)
    requires |pat| > 0
    requires !Occurs(pat, s)
    ensures Replace(s, pat, rep) == s
  {
    if s != [] {
      ReplaceAbsent(s[1..], pat, rep);
    }
  }

  /**
   * The scan copies the text before the first occurrence unchanged, replaces
   * that occurrence and carries on after it.
   */
  lemma {:induction false} ReplaceFirst(a: string, pat: string, rep: string, b: string)
    requires |pat| > 0
    requires forall k :: 0 <= k < |a| ==> !(pat <= a[k..] + pat + b)
    ensures Replace(a + pat + b, pat, rep) == a + rep + Replace(b, pat, rep)
    decreases |a|
  {
    if a == [] {
      assert a + pat + b == pat + b;
      assert (pat + b)[|pat|..] == b;
    } else {
      var s := a + pat + b;
      assert !(pat <= s) by {
        assert a[0..] == a;
      }
      assert s[0] == a[0] && s[1..] == a[1..] + pat + b;
      assert Replace(s[1..], pat, rep) == a[1..] + rep + Replace(b, pat, rep) by {
        assert forall k :: 0 <= k < |a[1..]| ==> a[1..][k..] == a[k + 1..];
        ReplaceFirst(a[1..], pat, rep, b);
      }
      assert [a[0]] + (a[1..] + rep + Replace(b, pat, rep)) == a + rep + Replace(b, pat, rep) by {
        assert [a[0]] + a[1..] == a;
      }
    }
  }

  /** The characters Python 2's `string.whitespace` lists. */
  predicate IsSpace(c: char) {
    c == ' ' || c == '\t' || c == '\n' || c == '\r' || c == '\U{B}' || c == '\U{C}'
  }

  predicate IsDigit(c: char) { '0' <= c <= '9' }

  /** Every character of `s` is whitespace. */
  predicate Blank(s: string) {
    forall k :: 0 <= k < |s| ==> IsSpace(s[k])
  }

  /** `s.lstrip()`: the suffix left after dropping the leading whitespace. */
  function StripLeft(s: string): (r: string)
    ensures |r| <= |s|
    ensures r == [] || !IsSpace(r[0])
  {
    if s != [] && IsSpace(s[0]) then StripLeft(s[1..]) else s
  }

  /** `lstrip` keeps a suffix and what it drops is whitespace. */
  lemma {:induction false} StripLeftDrops(s: string)
    ensures StripLeft(s) == s[|s| - |StripLeft(s)|..]
    ensures Blank(s[..|s| - |StripLeft(s)|])
  {
    if s != [] && IsSpace(s[0]) {
      StripLeftDrops(s[1..]);
      var n := |s| - |StripLeft(s)|;
      assert s[1..][n - 1..] == s[n..];
      assert s[1..][..n - 1] == s[1..n];
    }
  }

  /** `s.rstrip()`: the prefix left after dropping the trailing whitespace. */
  function StripRight(s: string): (r: string)
    ensures |r| <= |s|
    ensures r == [] || !IsSpace(r[|r| - 1])
  {
    if s != [] && IsSpace(s[|s| - 1]) then StripRight(s[..|s| - 1]) else s
  }

  /** `rstrip` keeps a prefix and what it drops is whitespace. */
  lemma {:induction false} StripRightDrops(s: string)
    ensures StripRight(s) == s[..|StripRight(s)|]
    ensures Blank(s[|StripRight(s)|..])
  {
    if s != [] && IsSpace(s[|s| - 1]) {
      StripRightDrops(s[..|s| - 1]);
      var n := |StripRight(s)|;
      assert s[..|s| - 1][..n] == s[..n];
      assert s[..|s| - 1][n..] == s[n..|s| - 1];
    }
  }

  /** `s.strip()`. */
  function Strip(s: string): string {
    StripRight(StripLeft(s))
  }

  predicate AllDigits(s: string) {
    forall k :: 0 <= k < |s| ==> IsDigit(s[k])
  }

  /** The value of a string of decimal digits, most significant first. */
  function DigitsValue(ds: string): nat
    requires AllDigits(ds)
  {
    if ds == [] then 0
    else 10 * DigitsValue(ds[..|ds| - 1]) + (ds[|ds| - 1] as int - '0' as int)
  }

  /**
   * Python 2's `int(s)` on a string: surrounding whitespace, an optional sign
   * that whitespace may follow, and at least one decimal digit. `None` stands
   * for the ValueError.
   */
  function ParseInt(s: string): Option<int> {
    ParseStripped(Strip(s))
  }

  /** `int()` once the surrounding whitespace is gone. */
  function ParseStripped(t: string): Option<int> {
    if t == [] then None
    else if t[0] == '-' || t[0] == '+' then
      var ds := StripLeft(t[1..]);
      if ds != [] && AllDigits(ds) then
        var v: int := DigitsValue(ds);
        Some(if t[0] == '-' then -v else v)
      else None
    else if AllDigits(t) then Some(DigitsValue(t))
    else None
  }

  /** Decimal digits of `n`, no leading zeros. */
  function FormatNat(n: nat): (r: string)
    ensures r != [] && AllDigits(r)
  {
    if n < 10 then [('0' as int + n) as char]
    else FormatNat(n / 10) + [('0' as int + n % 10) as char]
  }

  /** `str(n)`. */
  function FormatInt(n: int): (r: string)
    ensures r != []
  {
    if n < 0 then "-" + FormatNat(-n) else FormatNat(n)
  }

  lemma {:induction false} FormatNatValue(n: nat)
    ensures DigitsValue(FormatNat(n)) == n
  {
    if n >= 10 {
      FormatNatValue(n / 10);
      var r := FormatNat(n);
      assert r[..|r| - 1] == FormatNat(n / 10);
    }
  }

  /**
   * The shape `int()` accepts: leading whitespace, an optional sign, whitespace
   * after the sign, the digits and trailing whitespace.
   */
  predicate Numeral(pre: string, sign: string, mid: string, ds: string, post: string) {
    Blank(pre) && (sign == "" || sign == "-" || sign == "+") && Blank(mid)
    && (sign == "" ==> mid == "") && ds != [] && AllDigits(ds) && Blank(post)
  }

  function SignedValue(sign: string, ds: string): int
    requires AllDigits(ds)
  {
    var v: int := DigitsValue(ds);
    if sign == "-" then -v else v
  }

  /** Every numeral converts to its signed value. */
  lemma ParseIntAccepts(pre: string, sign: string, mid: string, ds: string, post: string)
    requires Numeral(pre, sign, mid, ds, post)
    ensures ParseInt(pre + sign + mid + ds + post) == Some(SignedValue(sign, ds))
  {
    var x := sign + mid + ds;
    assert pre + sign + mid + ds + post == pre + (x + post);
    assert IsDigit(ds[0]) && IsDigit(ds[|ds| - 1]);
    StripLeftBlank(pre, x + post);
    StripLeftKeeps(x + post);
    StripRightBlank(x, post);
    assert x[|x| - 1] == ds[|ds| - 1];
    StripRightKeeps(x);
    assert Strip(pre + sign + mid + ds + post) == x;
    ParseStrippedNumeral(sign, mid, ds);
  }

  lemma ParseStrippedNumeral(sign: string, mid: string, ds: string)
    requires Numeral("", sign, mid, ds, "")
    ensures ParseStripped(sign + mid + ds) == Some(SignedValue(sign, ds))
  {
    var x := sign + mid + ds;
    assert IsDigit(ds[0]);
    if sign != "" {
      assert x[0] == sign[0] && x[1..] == mid + ds;
      StripLeftBlank(mid, ds);
      StripLeftKeeps(ds);
      assert StripLeft(x[1..]) == ds;
    } else {
      assert x == ds;
      assert x[0] != '-' && x[0] != '+';
    }
  }

  lemma StripLeftKeeps(x: string)
    requires x == [] || !IsSpace(x[0])
    ensures StripLeft(x) == x
  {
  }

  lemma StripRightKeeps(x: string)
    requires x == [] || !IsSpace(x[|x| - 1])
    ensures StripRight(x) == x
  {
  }

  /** Conversely, only numerals convert, and each to its signed value. */
  lemma ParseIntOnlyNumerals(s: string)
    requires ParseInt(s).Some?
    ensures exists pre, sign, mid, ds, post ::
              && Numeral(pre, sign, mid, ds, post)
              && s == pre + sign + mid + ds + post
              && ParseInt(s) == Some(SignedValue(sign, ds))
  {
    var pre, post := StripShape(s);
    var sign, mid, ds := StrippedShape(Strip(s));
    ExhibitNumeral(s, pre, sign, mid, ds, post);
  }

  /** `strip` drops whitespace on both sides and nothing else. */
  lemma StripShape(s: string) returns (pre: string, post: string)
    ensures Blank(pre) && Blank(post) && s == pre + (Strip(s) + post)
  {
    var l := StripLeft(s);
    pre := s[..|s| - |l|];
    assert s == pre + l && Blank(pre) by {
      StripLeftDrops(s);
    }
    var t := StripRight(l);
    post := l[|t|..];
    assert l == t + post && Blank(post) by {
      StripRightDrops(l);
    }
    assert s == pre + (t + post);
  }

  /** The decomposition of a stripped text that `int()` accepts. */
  lemma StrippedShape(t: string) returns (sign: string, mid: string, ds: string)
    requires ParseStripped(t).Some?
    ensures Numeral("", sign, mid, ds, "") && t == sign + mid + ds
  {
    if t[0] == '-' || t[0] == '+' {
      var rest := t[1..];
      ds := StripLeft(rest);
      mid := rest[..|rest| - |ds|];
      sign := t[..1];
      StripLeftDrops(rest);
      assert t == sign + rest;
    } else {
      sign, mid, ds := "", "", t;
    }
  }

  lemma ExhibitNumeral(s: string, pre: string, sign: string, mid: string, ds: string, post: string)
    requires Numeral(pre, sign, mid, ds, post)
    requires s == pre + (sign + mid + ds + post)
    ensures exists pre, sign, mid, ds, post ::
              && Numeral(pre, sign, mid, ds, post)
              && s == pre + sign + mid + ds + post
              && ParseInt(s) == Some(SignedValue(sign, ds))
  {
    assert s == pre + sign + mid + ds + post;
    ParseIntAccepts(pre, sign, mid, ds, post);
  }

  lemma {:induction false} StripLeftBlank(pre: string, x: string)
    requires Blank(pre)
    ensures StripLeft(pre + x) == StripLeft(x)
  {
    if pre != [] {
      StripLeftBlank(pre[1..], x);
      assert (pre + x)[1..] == pre[1..] + x;
    } else {
      assert pre + x == x;
    }
  }

  lemma {:induction false} StripRightBlank(y: string, post: string)
    requires Blank(post)
    ensures StripRight(y + post) == StripRight(y)
  {
    if post != [] {
      var shorter := post[..|post| - 1];
      StripRightBlank(y, shorter);
      assert (y + post)[..|y + post| - 1] == y + shorter;
    } else {
      assert y + post == y;
    }
  }

  /** `int(str(n)) == n`. */
  lemma ParseFormat(n: int)
    ensures ParseInt(FormatInt(n)) == Some(n)
  {
    var sign := if n < 0 then "-" else "";
    var m: nat := if n < 0 then -n else n;
    var ds := FormatNat(m);
    assert FormatInt(n) == "" + sign + "" + ds + "" by {
      assert "" + sign + "" + ds + "" == sign + ds;
    }
    FormatNatValue(m);
    ParseIntAccepts("", sign, "", ds, "");
  }
}
