/** The handful of Go string primitives the library leans on (`strings.HasPrefix`,
    `strings.Contains`, `strings.Split`, joining with a separator, `strconv.Itoa`,
    and the leading-space trim used for WHERE fragments), with the facts about them
    that the rest of the model needs. */
module Strings {

  /** `strings.HasPrefix(s, p)`. */
  predicate HasPrefix(s: string, p: string) {
    |p| <= |s| && s[..|p|] == p
  }

  /** `strings.HasSuffix(s, p)`. */
  predicate HasSuffix(s: string, p: string) {
    |p| <= |s| && s[|s| - |p|..] == p
  }

  /** `strings.Contains(s, sub)`: `sub` occurs at some position of `s`. */
  predicate Contains(s: string, sub: string)
    decreases |s|
  {
    HasPrefix(s, sub) || (|s| > 0 && Contains(s[1..], sub))
  }

  lemma {:induction false} ContainsInfix(a: string, b: string, c: string)
    ensures Contains(a + b + c, b)
    decreases |a|
  {
    if |a| == 0 {
      assert a + b + c == b + c;
      assert (b + c)[..|b|] == b;
    } else {
      assert (a + b + c)[1..] == a[1..] + b + c;
      ContainsInfix(a[1..], b, c);
    }
  }

  /** Strip every leading blank (the only character the WHERE normaliser trims). */
  function TrimLeadingSpaces(s: string): (r: string)
    ensures |r| <= |s| && r == s[|s| - |r|..]
    ensures forall i :: 0 <= i < |s| - |r| ==> s[i] == ' '
    ensures r == [] || r[0] != ' '
    decreases |s|
  {
    if |s| > 0 && s[0] == ' ' then TrimLeadingSpaces(s[1..]) else s
  }

  /** `strings.Split(s, sep)` for a one-character separator: never empty, and
      the empty string splits into one empty part. */
  function Split(s: string, sep: char): (parts: seq<string>)
    ensures |parts| > 0
    decreases |s|
  {
    if |s| == 0 then [""]
    else
      var rest := Split(s[1..], sep);
      if s[0] == sep then [""] + rest
      else [[s[0]] + rest[0]] + rest[1..]
  }

  /** `strings.Join(parts, sep)`, which is also what the SQL builders' loops produce. */
  function Join(parts: seq<string>, sep: string): string
    decreases |parts|
  {
    if |parts| == 0 then ""
    else if |parts| == 1 then parts[0]
    else parts[0] + sep + Join(parts[1..], sep)
  }

  lemma {:induction false} JoinSnoc(parts: seq<string>, last: string, sep: string)
    requires |parts| > 0
    ensures Join(parts + [last], sep) == Join(parts, sep) + sep + last
    decreases |parts|
  {
    var all := parts + [last];
    assert all[1..] == parts[1..] + [last];
    if |parts| > 1 {
      JoinSnoc(parts[1..], last, sep);
      JoinUnfold(parts, sep);
    }
  }

  /** What a builder loop that writes each part, followed by `sep` unless it is
      the last one, holds after the first `i` parts. */
  function JoinedSoFar(parts: seq<string>, i: nat, sep: string): string
    requires i <= |parts|
  {
    if i == 0 then "" else Join(parts[..i], sep) + (if i < |parts| then sep else "")
  }

  lemma JoinedSoFarStep(parts: seq<string>, i: nat, sep: string)
    requires i < |parts|
    ensures JoinedSoFar(parts, i, sep) + parts[i] + (if i < |parts| - 1 then sep else "")
         == JoinedSoFar(parts, i + 1, sep)
  {
    assert parts[..i + 1] == parts[..i] + [parts[i]];
    if i > 0 {
      JoinSnoc(parts[..i], parts[i], sep);
    } else {
      assert parts[..1] == [parts[0]];
    }
  }

  lemma JoinedSoFarAll(parts: seq<string>, sep: string)
    ensures JoinedSoFar(parts, |parts|, sep) == Join(parts, sep)
  {
    assert parts[..|parts|] == parts;
  }

  /** The text before the first blank: `strings.Split(s, " ")[0]`. */
  function FirstToken(s: string): string {
    Split(s, ' ')[0]
  }

  lemma {:induction false} JoinUnfold(parts: seq<string>, sep: string)
    requires |parts| > 1
    ensures Join(parts, sep) == parts[0] + sep + Join(parts[1..], sep)
  {
  }

  lemma JoinConsHead(c: char, rest: seq<string>, sep: string)
    requires |rest| > 0
    ensures Join([[c] + rest[0]] + rest[1..], sep) == [c] + Join(rest, sep)
  {
    var parts := [[c] + rest[0]] + rest[1..];
    assert parts[1..] == rest[1..];
    if |rest| > 1 {
      JoinUnfold(parts, sep);
      JoinUnfold(rest, sep);
    }
  }

  /** Joining the parts of a split gives back the original text. */
  lemma {:induction false} JoinSplit(s: string, sep: char)
    ensures Join(Split(s, sep), [sep]) == s
    decreases |s|
  {
    if |s| > 0 {
      var rest := Split(s[1..], sep);
      JoinSplit(s[1..], sep);
      if s[0] == sep {
        var parts := [""] + rest;
        assert parts[1..] == rest;
        JoinUnfold(parts, [sep]);
        assert s == [sep] + s[1..];
      } else {
        JoinConsHead(s[0], rest, [sep]);
        assert s == [s[0]] + s[1..];
      }
    }
  }

  lemma {:induction false} SplitNoSeparator(a: string, sep: char)
    requires sep !in a
    ensures Split(a, sep) == [a]
    decreases |a|
  {
    if |a| > 0 {
      assert sep !in a[1..] by {
        forall i | 0 <= i < |a[1..]| ensures a[1..][i] != sep {
          assert a[1..][i] == a[i + 1];
        }
      }
      SplitNoSeparator(a[1..], sep);
      assert [a[0]] + a[1..] == a;
    }
  }

  lemma {:induction false} SplitAfterSeparator(a: string, sep: char, b: string)
    requires sep !in a
    ensures Split(a + [sep] + b, sep) == [a] + Split(b, sep)
    decreases |a|
  {
    var s := a + [sep] + b;
    if |a| == 0 {
      assert s[0] == sep && s[1..] == b;
    } else {
      assert s[0] == a[0] && s[1..] == a[1..] + [sep] + b;
      assert sep !in a[1..] by {
        forall i | 0 <= i < |a[1..]| ensures a[1..][i] != sep {
          assert a[1..][i] == a[i + 1];
        }
      }
      SplitAfterSeparator(a[1..], sep, b);
      assert [a[0]] + a[1..] == a;
    }
  }

  /** Every character other than the separator lands in some part. */
  lemma {:induction false} SplitKeepsChar(s: string, sep: char, c: char)
    requires c != sep && c in s
    ensures exists k :: 0 <= k < |Split(s, sep)| && c in Split(s, sep)[k]
    decreases |s|
  {
    var parts := Split(s, sep);
    var rest := Split(s[1..], sep);
    if s[0] == c {
      assert c in parts[0];
    } else {
      assert c in s[1..] by {
        var i :| 0 <= i < |s| && s[i] == c;
        assert s[1..][i - 1] == c;
      }
      SplitKeepsChar(s[1..], sep, c);
      var k :| 0 <= k < |rest| && c in rest[k];
      if s[0] == sep {
        assert parts[k + 1] == rest[k];
      } else if k == 0 {
        assert parts[0] == [s[0]] + rest[0];
        assert c in parts[0];
      } else {
        assert parts[k] == rest[k];
      }
    }
  }

  /** Splitting a join gives back the parts, as long as no part holds the separator. */
  lemma {:induction false} SplitJoin(parts: seq<string>, sep: char)
    requires |parts| > 0
    requires forall k :: 0 <= k < |parts| ==> sep !in parts[k]
    ensures Split(Join(parts, [sep]), sep) == parts
    decreases |parts|
  {
    if |parts| == 1 {
      SplitNoSeparator(parts[0], sep);
    } else {
      JoinUnfold(parts, [sep]);
      SplitAfterSeparator(parts[0], sep, Join(parts[1..], [sep]));
      SplitJoin(parts[1..], sep);
      assert [parts[0]] + parts[1..] == parts;
    }
  }

  /** The statement a `BEGIN TRANSACTION;…;COMMIT;` script wraps: the text
      between the 18-character opening and the 8-character closing. */
  function Transacted(script: string): string {
    if 18 + 8 <= |script| then script[18..|script| - 8] else ""
  }

  lemma TransactedBody(body: string)
    ensures Transacted("BEGIN TRANSACTION;" + body + ";COMMIT;") == body
  {
    var script := "BEGIN TRANSACTION;" + body + ";COMMIT;";
    assert script[18..|script| - 8] == body;
  }

  /** A blank-free word before a blank is the first part of the split. */
  lemma SplitWord(w: string, rest: string)
    requires ' ' !in w
    ensures Split(w + " " + rest, ' ') == [w] + Split(rest, ' ')
  {
    assert w + " " + rest == w + [' '] + rest;
    SplitAfterSeparator(w, ' ', rest);
  }

  /** Five blank-free words ahead of `rest` are the first five parts of the split. */
  lemma SplitFiveWords(w1: string, w2: string, w3: string, w4: string, w5: string, rest: string)
    requires ' ' !in w1 && ' ' !in w2 && ' ' !in w3 && ' ' !in w4 && ' ' !in w5
    ensures Split(w1 + " " + (w2 + " " + (w3 + " " + (w4 + " " + (w5 + " " + rest)))), ' ')
      == [w1, w2, w3, w4, w5] + Split(rest, ' ')
  {
    var t4 := w5 + " " + rest;
    var t3 := w4 + " " + t4;
    var t2 := w3 + " " + t3;
    var t1 := w2 + " " + t2;
    SplitWord(w5, rest);
    SplitWord(w4, t4);
    SplitWord(w3, t3);
    SplitWord(w2, t2);
    SplitWord(w1, t1);
  }

  /** The first token of `a + " " + b` is `a` when `a` holds no blank. */
  lemma FirstTokenBeforeBlank(a: string, b: string)
    requires ' ' !in a
    ensures FirstToken(a + " " + b) == a
  {
    SplitAfterSeparator(a, ' ', b);
  }

  lemma FirstTokenOfWord(a: string)
    requires ' ' !in a
    ensures FirstToken(a) == a
  {
    SplitNoSeparator(a, ' ');
  }

  predicate IsDigit(c: char) {
    '0' <= c <= '9'
  }

  function DigitChar(d: nat): (c: char)
    requires d < 10
    ensures IsDigit(c) && c as int - '0' as int == d
  {
    ('0' as int + d) as char
  }

  /** `strconv.Itoa` on a non-negative number. */
  function NatToString(n: nat): (s: string)
    ensures |s| > 0
    ensures forall i :: 0 <= i < |s| ==> IsDigit(s[i])
    decreases n
  {
    if n < 10 then [DigitChar(n)] else NatToString(n / 10) + [DigitChar(n % 10)]
  }

  /** Decimal reading of a string of digits (the inverse of `NatToString`). */
  function ParseNat(s: string): nat
    requires forall i :: 0 <= i < |s| ==> IsDigit(s[i])
    decreases |s|
  {
    if |s| == 0 then 0
    else
      assert IsDigit(s[|s| - 1]);
      ParseNat(s[..|s| - 1]) * 10 + (s[|s| - 1] as int - '0' as int)
  }

  lemma {:induction false} ParseNatToString(n: nat)
    ensures ParseNat(NatToString(n)) == n
    decreases n
  {
    if n >= 10 {
      var s := NatToString(n);
      assert s[..|s| - 1] == NatToString(n / 10);
      ParseNatToString(n / 10);
    }
  }

  /** Distinct numbers print differently, so `$k` placeholders never collide. */
  lemma NatToStringInjective(m: nat, n: nat)
    requires m != n
    ensures NatToString(m) != NatToString(n)
  {
    ParseNatToString(m);
    ParseNatToString(n);
  }
}
