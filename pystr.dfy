/**
 * The parts of Python's `str` that the save-string parsers use: `strip(chars)`,
 * `split(sep)`, `int(s)` and `str(n)` for integers.
 */
module PyStr {
  import opened Wrappers

  // ---------------------------------------------------------------- strip

  /** `s.lstrip(chars)`: drops the longest prefix made only of `chars`. */
  function StripLeft(s: string, chars: set<char>): (r: string)
    ensures |r| <= |s| && r == s[|s| - |r|..]
    ensures r == [] || r[0] !in chars
    ensures forall i :: 0 <= i < |s| - |r| ==> s[i] in chars
    decreases |s|
  {
    if |s| > 0 && s[0] in chars then StripLeft(s[1..], chars) else s
  }

  /** `s.rstrip(chars)`: drops the longest suffix made only of `chars`. */
  function StripRight(s: string, chars: set<char>): (r: string)
    ensures |r| <= |s| && r == s[..|r|]
    ensures r == [] || r[|r| - 1] !in chars
    ensures forall i :: |r| <= i < |s| ==> s[i] in chars
    decreases |s|
  {
    if |s| > 0 && s[|s| - 1] in chars then StripRight(s[..|s| - 1], chars) else s
  }

  /** `s.strip(chars)`. */
  function Strip(s: string, chars: set<char>): string
  {
    StripRight(StripLeft(s, chars), chars)
  }

  /** Wrapping a string that neither starts nor ends with a stripped character in
      stripped characters, then stripping, gives the string back. */
  lemma StripWrapped(pre: string, t: string, post: string, chars: set<char>)
    requires forall i :: 0 <= i < |pre| ==> pre[i] in chars
    requires forall i :: 0 <= i < |post| ==> post[i] in chars
    requires |t| > 0 && t[0] !in chars && t[|t| - 1] !in chars
    ensures Strip(pre + t + post, chars) == t
  {
    assert pre + t + post == pre + (t + post);
    assert (t + post)[0] == t[0];
    StripLeftWrapped(pre, t + post, chars);
    StripRightWrapped(t, post, chars);
  }

  lemma StripLeftWrapped(pre: string, u: string, chars: set<char>)
    requires forall i :: 0 <= i < |pre| ==> pre[i] in chars
    requires |u| > 0 && u[0] !in chars
    ensures StripLeft(pre + u, chars) == u
  {
    var s := pre + u;
    var l := StripLeft(s, chars);
    var n := |s| - |l|;
    assert n <= |pre| by {
      assert s[|pre|] == u[0];
    }
    assert n >= |pre| by {
      assert l[0] == s[n];
    }
    assert s[|pre|..] == u;
  }

  lemma StripRightWrapped(t: string, post: string, chars: set<char>)
    requires forall i :: 0 <= i < |post| ==> post[i] in chars
    requires |t| > 0 && t[|t| - 1] !in chars
    ensures StripRight(t + post, chars) == t
  {
    var l := t + post;
    var r := StripRight(l, chars);
    assert |r| >= |t| by {
      assert l[|t| - 1] == t[|t| - 1];
    }
    assert |r| <= |t| by {
      assert r[|r| - 1] == l[|r| - 1];
    }
    assert l[..|t|] == t;
  }

  /** Stripping leaves a string alone that neither starts nor ends with a stripped character. */
  lemma StripClean(t: string, chars: set<char>)
    requires |t| > 0 && t[0] !in chars && t[|t| - 1] !in chars
    ensures Strip(t, chars) == t
  {
    StripWrapped("", t, "", chars);
    assert "" + t + "" == t;
  }

  // ---------------------------------------------------------------- split

  /** `sep` occurs in `s` starting at index `i`. */
  predicate OccursAt(s: string, sep: string, i: nat)
  {
    i + |sep| <= |s| && s[i..i + |sep|] == sep
  }

  /** `s.find(sep, k)`, with `|s|` standing for "not found". */
  function IndexFrom(s: string, sep: string, k: nat): (i: nat)
    requires |sep| > 0 && k <= |s|
    ensures k <= i <= |s|
    ensures i < |s| ==> OccursAt(s, sep, i)
    ensures forall j :: k <= j < i ==> !OccursAt(s, sep, j)
    ensures i == |s| ==> forall j :: k <= j ==> !OccursAt(s, sep, j)
    decreases |s| - k
  {
    if k + |sep| > |s| then |s|
    else if OccursAt(s, sep, k) then k
    else IndexFrom(s, sep, k + 1)
  }

  /** `sep.join(parts)`. */
  function Join(parts: seq<string>, sep: string): string
  {
    if |parts| == 0 then ""
    else if |parts| == 1 then parts[0]
    else parts[0] + sep + Join(parts[1..], sep)
  }

  /** No occurrence of `sep` in `p`. */
  predicate NoOccurrence(p: string, sep: string)
  {
    forall j :: 0 <= j <= |p| ==> !OccursAt(p, sep, j)
  }

  /** `s.split(sep)` for a non-empty separator: cut at the leftmost occurrence,
      then split what follows it. */
  function Split(s: string, sep: string): (r: seq<string>)
    requires |sep| > 0
    ensures |r| >= 1
    decreases |s|
  {
    var i := IndexFrom(s, sep, 0);
    if i == |s| then [s]
    else [s[..i]] + Split(s[i + |sep|..], sep)
  }

  /** The text before the leftmost occurrence holds no occurrence. */
  lemma NoOccurrenceBefore(s: string, sep: string, i: nat)
    requires |sep| > 0 && i <= |s| && forall j :: 0 <= j < i ==> !OccursAt(s, sep, j)
    ensures NoOccurrence(s[..i], sep)
  {
    forall j | 0 <= j <= i ensures !OccursAt(s[..i], sep, j) {
      if j < i && j + |sep| <= i {
        assert !OccursAt(s, sep, j);
        assert s[..i][j..j + |sep|] == s[j..j + |sep|];
      }
    }
  }

  /** A split into a single piece leaves the string whole. */
  lemma SplitAlone(s: string, sep: string)
    requires |sep| > 0 && |Split(s, sep)| == 1
    ensures Split(s, sep) == [s]
  {
    SplitPieces(s, sep);
  }

  /** Joining the pieces of a split on the same separator gives the string back, and
      no piece contains the separator. */
  lemma {:induction false} SplitPieces(s: string, sep: string)
    requires |sep| > 0
    ensures Join(Split(s, sep), sep) == s
    ensures forall k :: 0 <= k < |Split(s, sep)| ==> NoOccurrence(Split(s, sep)[k], sep)
    decreases |s|
  {
    var i := IndexFrom(s, sep, 0);
    if i < |s| {
      var rest := s[i + |sep|..];
      SplitPieces(rest, sep);
      NoOccurrenceBefore(s, sep, i);
      assert s == s[..i] + sep + rest;
      assert Split(s, sep) == [s[..i]] + Split(rest, sep);
      assert Split(s, sep)[1..] == Split(rest, sep);
    }
  }

  /** A piece that can stand before `sep` in a joined string without `split`
      finding `sep` earlier than intended: no occurrence starts inside `p + sep`
      before the separator itself. */
  predicate SepFree(p: string, sep: string)
  {
    forall j :: 0 <= j < |p| ==> !OccursAt(p + sep, sep, j)
  }

  /** A piece is separator-free when the separator's last character appears
      neither earlier in the separator nor in the piece, except possibly within
      the piece's first `|sep| - 1` characters. */
  lemma SepFreeByLastChar(p: string, sep: string)
    requires |sep| > 0
    requires forall i :: |sep| - 1 <= i < |p| ==> p[i] != sep[|sep| - 1]
    requires forall i :: 0 <= i < |sep| - 1 ==> sep[i] != sep[|sep| - 1]
    ensures SepFree(p, sep)
  {
    forall j | 0 <= j < |p| ensures !OccursAt(p + sep, sep, j) {
      var s := p + sep;
      var e := j + |sep| - 1;
      if j + |sep| <= |s| {
        assert s[e] != sep[|sep| - 1] by {
          if e < |p| {
            assert s[e] == p[e];
          } else {
            assert s[e] == sep[e - |p|];
          }
        }
        assert s[j..j + |sep|][|sep| - 1] == s[e];
      }
    }
  }

  /** A piece is separator-free when it does not contain the separator's first character. */
  lemma SepFreeByFirstChar(p: string, sep: string)
    requires |sep| > 0 && sep[0] !in p
    ensures SepFree(p, sep)
  {
    forall j | 0 <= j < |p| ensures !OccursAt(p + sep, sep, j) {
      var s := p + sep;
      if j + |sep| <= |s| {
        assert s[j..j + |sep|][0] == p[j];
      }
    }
  }

  /** `split` undoes `join` when every piece is separator-free. */
  lemma {:induction false} SplitJoin(parts: seq<string>, sep: string)
    requires |sep| > 0 && |parts| >= 1
    requires forall k :: 0 <= k < |parts| ==> SepFree(parts[k], sep)
    ensures Split(Join(parts, sep), sep) == parts
    decreases |parts|
  {
    var s := Join(parts, sep);
    var p := parts[0];
    if |parts| == 1 {
      assert s == p;
      forall j | 0 <= j < |p| ensures !OccursAt(p, sep, j) {
        assert !OccursAt(p + sep, sep, j);
        if j + |sep| <= |p| {
          assert p[j..j + |sep|] == (p + sep)[j..j + |sep|];
        }
      }
    } else {
      var rest := Join(parts[1..], sep);
      assert s == p + sep + rest;
      forall j | 0 <= j < |p| ensures !OccursAt(s, sep, j) {
        assert !OccursAt(p + sep, sep, j);
        assert s[j..j + |sep|] == (p + sep)[j..j + |sep|];
      }
      assert OccursAt(s, sep, |p|) by {
        assert s[|p|..|p| + |sep|] == sep;
      }
      var i := IndexFrom(s, sep, 0);
      assert i == |p|;
      assert s[..i] == p;
      assert s[i + |sep|..] == rest;
      SplitJoin(parts[1..], sep);
      assert parts == [p] + parts[1..];
    }
  }

  /** When `c` is not in `a`, the first piece of splitting `a + [c] + b` on `c` is `a`. */
  lemma SplitFirst(a: string, c: char, b: string)
    requires c !in a
    ensures Split(a + [c] + b, [c])[0] == a
  {
    var s := a + [c] + b;
    forall j | 0 <= j < |a| ensures !OccursAt(s, [c], j) {
      assert s[j..j + 1] == [a[j]];
    }
    assert OccursAt(s, [c], |a|) by {
      assert s[|a|..|a| + 1] == [c];
    }
    assert IndexFrom(s, [c], 0) == |a|;
    assert s[..|a|] == a;
  }

  /** A single-character separator absent from every piece makes every piece separator-free. */
  lemma SepFreeSingle(parts: seq<string>, c: char)
    requires forall k :: 0 <= k < |parts| ==> c !in parts[k]
    ensures forall k :: 0 <= k < |parts| ==> SepFree(parts[k], [c])
  {
    forall k | 0 <= k < |parts| ensures SepFree(parts[k], [c]) {
      SepFreeByLastChar(parts[k], [c]);
    }
  }

  /** `[pre + x + post for x in xs]`. */
  function Affixed(xs: seq<string>, pre: string, post: string): (r: seq<string>)
    ensures |r| == |xs| && forall i :: 0 <= i < |xs| ==> r[i] == pre + xs[i] + post
  {
    seq(|xs|, i requires 0 <= i < |xs| => pre + xs[i] + post)
  }

  /** Joining wrapped pieces is wrapping the join on the widened separator,
      as `str()` of a list of lists shows: `[[a], [b]]` is `[[` + `a], [b` + `]]`. */
  lemma {:induction false} JoinAffixed(xs: seq<string>, pre: string, post: string, sep: string)
    requires |xs| >= 1
    ensures Join(Affixed(xs, pre, post), sep) == pre + Join(xs, post + sep + pre) + post
    decreases |xs|
  {
    if |xs| > 1 {
      var w := post + sep + pre;
      var ys := Affixed(xs, pre, post);
      assert ys[0] == pre + xs[0] + post;
      assert ys[1..] == Affixed(xs[1..], pre, post);
      JoinAffixed(xs[1..], pre, post, sep);
      assert Join(ys, sep) == ys[0] + sep + Join(ys[1..], sep);
      assert Join(xs, w) == xs[0] + w + Join(xs[1..], w);
      Regroup(pre, xs[0], post, sep, Join(xs[1..], w));
    }
  }

  /** The concatenation step of `JoinAffixed`. */
  lemma Regroup(pre: string, x: string, post: string, sep: string, j: string)
    ensures (pre + x + post) + sep + (pre + j + post) == pre + (x + (post + sep + pre) + j) + post
  {
  }

  /** A prefix of a join is a prefix of its first piece. */
  lemma JoinHeadPrefix(pre: string, ys: seq<string>, sep: string)
    requires |ys| >= 1
    ensures pre + Join(ys, sep) == Join([pre + ys[0]] + ys[1..], sep)
  {
    var zs := [pre + ys[0]] + ys[1..];
    assert zs[1..] == ys[1..];
  }

  /** A join starts with its first piece's first character and ends with its last
      piece's last character. */
  lemma JoinEnds(parts: seq<string>, sep: string)
    requires |parts| >= 1 && |parts[0]| > 0 && |parts[|parts| - 1]| > 0
    ensures var j := Join(parts, sep);
      |j| > 0 && j[0] == parts[0][0] && j[|j| - 1] == parts[|parts| - 1][|parts[|parts| - 1]| - 1]
  {
    JoinLast(parts, sep);
  }

  lemma {:induction false} JoinLast(parts: seq<string>, sep: string)
    requires |parts| >= 1 && |parts[|parts| - 1]| > 0
    ensures var j := Join(parts, sep);
      |j| > 0 && j[|j| - 1] == parts[|parts| - 1][|parts[|parts| - 1]| - 1]
    decreases |parts|
  {
    if |parts| > 1 {
      var rest := parts[1..];
      assert rest[|rest| - 1] == parts[|parts| - 1];
      JoinLast(rest, sep);
    }
  }

  /** A character in neither the pieces nor the separator is not in their join. */
  lemma {:induction false} JoinAvoids(parts: seq<string>, sep: string, c: char)
    requires c !in sep && forall k :: 0 <= k < |parts| ==> c !in parts[k]
    ensures c !in Join(parts, sep)
    decreases |parts|
  {
    if |parts| > 1 {
      JoinAvoids(parts[1..], sep, c);
    }
  }

  // ---------------------------------------------------------------- int() and str()

  /** The characters `int()` strips before parsing (ASCII whitespace). */
  const Whitespace: set<char> := {' ', '\t', '\n', '\r', '\U{0B}', '\U{0C}'}

  predicate IsDigit(c: char)
  {
    '0' <= c <= '9'
  }

  predicate AllDigits(d: string)
  {
    forall i :: 0 <= i < |d| ==> IsDigit(d[i])
  }

  function DigitValue(c: char): nat
    requires IsDigit(c)
  {
    (c as int) - ('0' as int)
  }

  function DigitChar(n: nat): (c: char)
    requires n < 10
    ensures IsDigit(c) && DigitValue(c) == n
  {
    (('0' as int) + n) as char
  }

  /** The value of a string of decimal digits. */
  function DigitsValue(d: string): nat
    requires AllDigits(d)
    decreases |d|
  {
    if |d| == 0 then 0 else 10 * DigitsValue(d[..|d| - 1]) + DigitValue(d[|d| - 1])
  }

  /** An optionally signed run of at least one decimal digit. */
  function ParseSigned(t: string): Option<int>
  {
    if |t| > 0 && (t[0] == '-' || t[0] == '+') then
      var d := t[1..];
      if |d| > 0 && AllDigits(d) then
        var v: int := DigitsValue(d);
        Some(if t[0] == '-' then -v else v)
      else None
    else if |t| > 0 && AllDigits(t) then Some(DigitsValue(t))
    else None
  }

  /** Python's `int(s)` on a string: `None` where Python raises `ValueError`. */
  function ParseInt(s: string): Option<int>
  {
    ParseSigned(Strip(s, Whitespace))
  }

  /** The decimal digits of `n`, without leading zeros. */
  function NatToDigits(n: nat): (d: string)
    ensures |d| > 0 && AllDigits(d) && DigitsValue(d) == n
    ensures d[0] == '0' ==> n == 0
    decreases n
  {
    if n < 10 then [DigitChar(n)]
    else
      var d := NatToDigits(n / 10) + [DigitChar(n % 10)];
      assert d[..|d| - 1] == NatToDigits(n / 10);
      d
  }

  /** Python's `str(n)` for an integer. */
  function IntToString(n: int): (r: string)
    ensures |r| > 0
    ensures forall i :: 0 <= i < |r| ==> r[i] == '-' || IsDigit(r[i])
    ensures IsDigit(r[|r| - 1])
    ensures n < 0 <==> r[0] == '-'
  {
    if n < 0 then "-" + NatToDigits(-n) else NatToDigits(n)
  }

  /** `int()` reads back what `str()` writes. */
  lemma ParseIntToString(n: int)
    ensures ParseInt(IntToString(n)) == Some(n)
  {
    var r := IntToString(n);
    StripClean(r, Whitespace);
    ParseSignedToString(n);
  }

  lemma ParseSignedToString(n: int)
    ensures ParseSigned(IntToString(n)) == Some(n)
  {
    var r := IntToString(n);
    if n < 0 {
      assert r[1..] == NatToDigits(-n);
    } else {
      assert r == NatToDigits(n);
    }
  }

  /** `int()` ignores a leading space, as in the `" 4"` that splitting `"3, 4"` on `","` leaves. */
  lemma ParseIntSpaced(n: int)
    ensures ParseInt(" " + IntToString(n)) == Some(n)
  {
    var r := IntToString(n);
    StripWrapped(" ", r, "", Whitespace);
    assert " " + r + "" == " " + r;
    ParseSignedToString(n);
  }
}
