/**
 * The JavaScript string primitives the pipeline relies on: the white-space class shared by `\s`
 * and `String.prototype.trim`, `includes`, `startsWith`, `split` and `join` on one separator,
 * the UTF-16 `length`, and the decimal rendering of a non-negative integer (`${n}`).
 */
module JsText {

  /** ECMAScript WhiteSpace and LineTerminator code points: the set matched by `\s` and removed by `trim`. */
  predicate IsWhite(c: char) {
    var n := c as int;
    || n == 0x09 || n == 0x0A || n == 0x0B || n == 0x0C || n == 0x0D || n == 0x20
    || n == 0xA0 || n == 0x1680 || (0x2000 <= n <= 0x200A) || n == 0x2028 || n == 0x2029
    || n == 0x202F || n == 0x205F || n == 0x3000 || n == 0xFEFF
  }

  /** Every character of `s` is white space (the empty string included). */
  predicate IsBlank(s: string) {
    forall i :: 0 <= i < |s| ==> IsWhite(s[i])
  }

  /** Removes the leading white space of `s`. */
  function TrimStart(s: string): (r: string)
    ensures |r| <= |s| && r == s[|s| - |r|..]
    ensures forall i :: 0 <= i < |s| - |r| ==> IsWhite(s[i])
    ensures r != [] ==> !IsWhite(r[0])
  {
    if s != [] && IsWhite(s[0]) then TrimStart(s[1..]) else s
  }

  /** Removes the trailing white space of `s`. */
  function TrimEnd(s: string): (r: string)
    ensures |r| <= |s| && r == s[..|r|]
    ensures forall i :: |r| <= i < |s| ==> IsWhite(s[i])
    ensures r != [] ==> !IsWhite(r[|r| - 1])
  {
    if s != [] && IsWhite(s[|s| - 1]) then TrimEnd(s[..|s| - 1]) else s
  }

  /** `String.prototype.trim`: the result is empty exactly when the input is blank. */
  function Trim(s: string): (r: string)
    ensures r == "" <==> IsBlank(s)
    ensures r != "" ==> !IsWhite(r[0]) && !IsWhite(r[|r| - 1])
  {
    TrimEnd(TrimStart(s))
  }

  /** `s.startsWith(p)`. */
  predicate StartsWith(s: string, p: string) {
    |p| <= |s| && s[..|p|] == p
  }

  /** A string whose first character differs from that of `p` does not start with `p`. */
  lemma FirstCharRulesOut(s: string, p: string)
    requires |s| > 0 && |p| > 0 && s[0] != p[0]
    ensures !StartsWith(s, p)
  {
    if |p| <= |s| {
      assert s[..|p|][0] == s[0];
    }
  }

  /** `s.endsWith(p)`. */
  predicate EndsWith(s: string, p: string) {
    |p| <= |s| && s[|s| - |p|..] == p
  }

  /** `s.includes(t)`: `t` occurs in `s` at some position. */
  predicate Contains(s: string, t: string)
    decreases |s|
  {
    StartsWith(s, t) || (s != [] && Contains(s[1..], t))
  }

  /** `t` occurs in `s` at offset `i`. */
  ghost predicate OccursAt(s: string, t: string, i: int) {
    0 <= i <= |s| - |t| && s[i..i + |t|] == t
  }

  /** `Contains` holds exactly when `t` occurs at some offset of `s`. */
  lemma {:induction false} ContainsIffOccurs(s: string, t: string)
    ensures Contains(s, t) <==> exists i :: OccursAt(s, t, i)
    decreases |s|
  {
    if StartsWith(s, t) {
      assert OccursAt(s, t, 0);
    } else if s == [] {
      assert forall i :: !OccursAt(s, t, i);
    } else {
      ContainsIffOccurs(s[1..], t);
      if Contains(s[1..], t) {
        var i :| OccursAt(s[1..], t, i);
        assert s[i + 1..i + 1 + |t|] == s[1..][i..i + |t|];
        assert OccursAt(s, t, i + 1);
      }
      if exists i :: OccursAt(s, t, i) {
        var i :| OccursAt(s, t, i);
        assert i != 0;
        assert s[1..][i - 1..i - 1 + |t|] == s[i..i + |t|];
        assert OccursAt(s[1..], t, i - 1);
      }
    }
  }

  /** Prepending text keeps an occurrence. */
  lemma {:induction false} ContainsAfterPrefix(p: string, s: string, t: string)
    requires Contains(s, t)
    ensures Contains(p + s, t)
    decreases |p|
  {
    if p != [] {
      assert (p + s)[1..] == p[1..] + s;
      ContainsAfterPrefix(p[1..], s, t);
    } else {
      assert p + s == s;
    }
  }

  /** Appending text keeps an occurrence. */
  lemma {:induction false} ContainsBeforeSuffix(s: string, q: string, t: string)
    requires Contains(s, t)
    ensures Contains(s + q, t)
    decreases |s|
  {
    if StartsWith(s, t) {
      assert (s + q)[..|t|] == s[..|t|];
    } else {
      assert (s + q)[1..] == s[1..] + q;
      ContainsBeforeSuffix(s[1..], q, t);
    }
  }

  /** A string placed between two others is contained in the concatenation. */
  lemma ContainsInfix(a: string, t: string, b: string)
    ensures Contains(a + t + b, t)
  {
    assert StartsWith(t + b, t) by {
      assert (t + b)[..|t|] == t;
    }
    ContainsAfterPrefix(a, t + b, t);
    assert a + (t + b) == a + t + b;
  }

  /** If one character of `t` never occurs in `s`, then `s` does not contain `t`. */
  lemma {:induction false} AbsentCharRulesOut(s: string, t: string, c: char)
    requires c in t
    requires forall k :: 0 <= k < |s| ==> s[k] != c
    ensures !Contains(s, t)
    decreases |s|
  {
    if s != [] {
      AbsentCharRulesOut(s[1..], t, c);
    }
  }

  /** No piece of `ls` holds the separator. */
  predicate NoSeparator(ls: seq<string>, sep: char) {
    forall i :: 0 <= i < |ls| ==> sep !in ls[i]
  }

  lemma NoSeparatorAppend(a: seq<string>, b: seq<string>, sep: char)
    requires NoSeparator(a, sep) && NoSeparator(b, sep)
    ensures NoSeparator(a + b, sep)
  {
    forall i | 0 <= i < |a + b|
      ensures sep !in (a + b)[i]
    {
      if i >= |a| {
        assert (a + b)[i] == b[i - |a|];
      }
    }
  }

  /** Joining four lines. */
  lemma JoinFour(a: string, b: string, c: string, d: string, sep: char)
    ensures Join([a, b, c, d], sep) == a + [sep] + b + [sep] + c + [sep] + d
  {
    JoinThree(b, c, d, sep);
    assert [a, b, c, d][1..] == [b, c, d];
    var t := b + [sep] + c + [sep] + d;
    assert a + [sep] + t == a + [sep] + b + [sep] + c + [sep] + d;
  }

  /** Joining three lines. */
  lemma JoinThree(a: string, b: string, c: string, sep: char)
    ensures Join([a, b, c], sep) == a + [sep] + b + [sep] + c
  {
    assert [a, b, c][1..] == [b, c];
    assert [b, c][1..] == [c];
    assert Join([b, c], sep) == b + [sep] + c;
    var t := b + [sep] + c;
    assert a + [sep] + t == a + [sep] + b + [sep] + c;
  }

  /** The first index of `s` holding one of the characters `cs`, or `|s|` when there is none. */
  function IndexOfAny(s: string, cs: string): (r: nat)
    ensures r <= |s|
    ensures r < |s| ==> s[r] in cs
    ensures forall i :: 0 <= i < r ==> s[i] !in cs
  {
    if s == [] then 0
    else if s[0] in cs then 0
    else 1 + IndexOfAny(s[1..], cs)
  }

  /** When none of `cs` occurs in `s`, the search runs off the end. */
  lemma IndexOfAnyAbsent(s: string, cs: string)
    requires forall i :: 0 <= i < |s| ==> s[i] !in cs
    ensures IndexOfAny(s, cs) == |s|
  {
  }

  /** The `length` of a JavaScript string: code points above U+FFFF take two UTF-16 code units. */
  function Utf16Length(s: string): (r: nat)
    ensures |s| <= r <= 2 * |s|
    ensures (forall i :: 0 <= i < |s| ==> s[i] as int < 0x10000) ==> r == |s|
  {
    if s == [] then 0
    else Utf16Length(s[1..]) + (if s[0] as int >= 0x10000 then 2 else 1)
  }

  /** `s.split(sep)` for a one-character separator: the maximal separator-free pieces, in order. */
  function Split(s: string, sep: char): (r: seq<string>)
    ensures |r| >= 1
    ensures forall i :: 0 <= i < |r| ==> sep !in r[i]
  {
    if s == [] then [""]
    else
      var rest := Split(s[1..], sep);
      if s[0] == sep then [""] + rest
      else [[s[0]] + rest[0]] + rest[1..]
  }

  /** `ls.join(sep)` for a one-character separator. */
  function Join(ls: seq<string>, sep: char): string
  {
    if |ls| == 0 then ""
    else if |ls| == 1 then ls[0]
    else ls[0] + [sep] + Join(ls[1..], sep)
  }

  /** Joining two non-empty lists puts one separator between their joins. */
  lemma {:induction false} JoinAppend(a: seq<string>, b: seq<string>, sep: char)
    requires |a| >= 1 && |b| >= 1
    ensures Join(a + b, sep) == Join(a, sep) + [sep] + Join(b, sep)
    decreases |a|
  {
    assert (a + b)[0] == a[0];
    assert (a + b)[1..] == a[1..] + b;
    if |a| > 1 {
      JoinAppend(a[1..], b, sep);
    }
  }

  /** A piece that opens with the separator joins like an empty piece followed by the rest of it. */
  lemma LeadingSeparatorJoin(top: seq<string>, header: string, tail: seq<string>, sep: char)
    requires |top| >= 1 && |tail| >= 1
    ensures Join(top + ([[sep] + header] + tail), sep) == Join(top + (["", header] + tail), sep)
  {
    LeadingSeparatorPiece(header, tail, sep);
    JoinAppend(top, [[sep] + header] + tail, sep);
    JoinAppend(top, ["", header] + tail, sep);
  }

  lemma LeadingSeparatorPiece(header: string, tail: seq<string>, sep: char)
    requires |tail| >= 1
    ensures Join([[sep] + header] + tail, sep) == Join(["", header] + tail, sep)
  {
    var rest := Join(tail, sep);
    assert Join([[sep] + header] + tail, sep) == ([sep] + header) + [sep] + rest by {
      JoinCons([sep] + header, tail, sep);
    }
    assert Join(["", header] + tail, sep) == "" + [sep] + (header + [sep] + rest) by {
      assert ["", header] + tail == [""] + ([header] + tail);
      JoinCons("", [header] + tail, sep);
      JoinCons(header, tail, sep);
    }
    SeparatorRegroups(header, rest, sep);
  }

  lemma SeparatorRegroups(header: string, rest: string, sep: char)
    ensures "" + [sep] + (header + [sep] + rest) == ([sep] + header) + [sep] + rest
  {
  }

  /** Joining a piece onto a non-empty list. */
  lemma JoinCons(h: string, tail: seq<string>, sep: char)
    requires |tail| >= 1
    ensures Join([h] + tail, sep) == h + [sep] + Join(tail, sep)
  {
    assert ([h] + tail)[1..] == tail;
  }

  /** A separator-free prefix stays glued to the first piece of whatever follows it. */
  lemma {:induction false} SplitGluesPrefix(a: string, tail: string, sep: char)
    requires sep !in a
    ensures Split(a + tail, sep) == [a + Split(tail, sep)[0]] + Split(tail, sep)[1..]
    decreases |a|
  {
    if a != [] {
      assert (a + tail)[1..] == a[1..] + tail;
      SplitGluesPrefix(a[1..], tail, sep);
      assert [a[0]] + (a[1..] + Split(tail, sep)[0]) == a + Split(tail, sep)[0];
    } else {
      var r := Split(tail, sep);
      assert a + tail == tail;
      assert r == [r[0]] + r[1..];
      assert a + r[0] == r[0];
    }
  }

  /** Splitting a join of separator-free pieces recovers the pieces. */
  lemma {:induction false} SplitJoin(ls: seq<string>, sep: char)
    requires |ls| >= 1
    requires forall i :: 0 <= i < |ls| ==> sep !in ls[i]
    ensures Split(Join(ls, sep), sep) == ls
    decreases |ls|
  {
    if |ls| == 1 {
      SplitGluesPrefix(ls[0], "", sep);
      assert ls[0] + "" == ls[0];
    } else {
      var rest := Join(ls[1..], sep);
      SplitJoin(ls[1..], sep);
      assert Split([sep] + rest, sep) == [""] + ls[1..] by {
        assert ([sep] + rest)[1..] == rest;
      }
      assert ls[0] + [sep] + rest == ls[0] + ([sep] + rest);
      SplitGluesPrefix(ls[0], [sep] + rest, sep);
      assert ls[0] + "" == ls[0];
      assert ls == [ls[0]] + ls[1..];
    }
  }

  /** Every element of a list appears in its join. */
  lemma {:induction false} JoinContainsElement(ls: seq<string>, sep: char, k: nat)
    requires k < |ls|
    ensures Contains(Join(ls, sep), ls[k])
    decreases |ls|
  {
    if |ls| == 1 {
      ContainsInfix("", ls[0], "");
      assert "" + ls[0] + "" == ls[0];
    } else if k == 0 {
      ContainsInfix("", ls[0], [sep] + Join(ls[1..], sep));
      assert "" + ls[0] + ([sep] + Join(ls[1..], sep)) == Join(ls, sep);
    } else {
      JoinContainsElement(ls[1..], sep, k - 1);
      assert ls[1..][k - 1] == ls[k];
      ContainsAfterPrefix(ls[0] + [sep], Join(ls[1..], sep), ls[k]);
    }
  }

  /** The join of a non-empty list starts with its first element. */
  lemma JoinStartsWithFirst(ls: seq<string>, sep: char)
    requires |ls| >= 1
    ensures StartsWith(Join(ls, sep), ls[0])
  {
    if |ls| > 1 {
      assert Join(ls, sep)[..|ls[0]|] == ls[0];
    }
  }

  predicate IsDigit(c: char) {
    '0' <= c <= '9'
  }

  predicate AllDigits(s: string) {
    forall i :: 0 <= i < |s| ==> IsDigit(s[i])
  }

  function DigitChar(d: nat): (c: char)
    requires d < 10
    ensures IsDigit(c) && c as int - '0' as int == d
  {
    ('0' as int + d) as char
  }

  /** `${n}` for a non-negative integer: its canonical decimal digits, no leading zero. */
  function NatToString(n: nat): (r: string)
    ensures |r| >= 1 && AllDigits(r)
    ensures |r| > 1 ==> r[0] != '0'
  {
    if n < 10 then [DigitChar(n)] else NatToString(n / 10) + [DigitChar(n % 10)]
  }
}
