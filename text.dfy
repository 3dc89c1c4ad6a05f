/** The JavaScript string operations the editor extension relies on (`trim`,
    `toLowerCase`, `startsWith`, `includes`, `split`, `join`, `replaceAll`,
    `path.basename`), stated on Dafny strings. */
module Text {
  import opened Wrappers

  /** ECMAScript WhiteSpace and LineTerminator code points: what `String.prototype.trim`
      removes and what the regular-expression class `\s` matches. */
  predicate IsWhitespace(c: char) {
    c == '\t' || c == '\n' || c == '\U{B}' || c == '\U{C}' || c == '\r' || c == ' '
    || c == '\U{A0}' || c == '\U{1680}' || ('\U{2000}' <= c <= '\U{200A}')
    || c == '\U{2028}' || c == '\U{2029}' || c == '\U{202F}' || c == '\U{205F}'
    || c == '\U{3000}' || c == '\U{FEFF}'
  }

  /** Code points that end a line for the regular-expression `.` and `$`. */
  predicate IsLineTerminator(c: char) {
    c == '\n' || c == '\r' || c == '\U{2028}' || c == '\U{2029}'
  }

  predicate IsDigit(c: char) {
    '0' <= c <= '9'
  }

  function TrimStart(s: string): (r: string)
    ensures |r| <= |s| && r == s[|s| - |r|..]
    ensures r == [] || !IsWhitespace(r[0])
    ensures forall i :: 0 <= i < |s| - |r| ==> IsWhitespace(s[i])
  {
    if |s| > 0 && IsWhitespace(s[0]) then TrimStart(s[1..]) else s
  }

  function TrimEnd(s: string): (r: string)
    ensures |r| <= |s| && r == s[..|r|]
    ensures r == [] || !IsWhitespace(r[|r| - 1])
    ensures forall i :: |r| <= i < |s| ==> IsWhitespace(s[i])
  {
    if |s| > 0 && IsWhitespace(s[|s| - 1]) then TrimEnd(s[..|s| - 1]) else s
  }

  /** `s.trim()` */
  function Trim(s: string): (r: string)
    ensures r == [] || (!IsWhitespace(r[0]) && !IsWhitespace(r[|r| - 1]))
  {
    TrimEnd(TrimStart(s))
  }

  lemma TrimStartNoop(s: string)
    requires s == [] || !IsWhitespace(s[0])
    ensures TrimStart(s) == s
  {
  }

  lemma TrimEndNoop(s: string)
    requires s == [] || !IsWhitespace(s[|s| - 1])
    ensures TrimEnd(s) == s
  {
  }

  lemma TrimNoop(s: string)
    requires s == [] || (!IsWhitespace(s[0]) && !IsWhitespace(s[|s| - 1]))
    ensures Trim(s) == s
  {
  }

  /** Trim of a string with whitespace-free ends, followed by whitespace only. */
  lemma {:induction false} TrimEndAppendSpace(s: string, w: string)
    requires s == [] || !IsWhitespace(s[|s| - 1])
    requires forall i :: 0 <= i < |w| ==> IsWhitespace(w[i])
    ensures TrimEnd(s + w) == s
    decreases |w|
  {
    if |w| > 0 {
      assert (s + w)[..|s + w| - 1] == s + w[..|w| - 1];
      TrimEndAppendSpace(s, w[..|w| - 1]);
    } else {
      assert s + w == s;
    }
  }

  /** Leading whitespace in front of a string whose first character is not whitespace. */
  lemma {:induction false} TrimStartPrependSpace(w: string, s: string)
    requires s == [] || !IsWhitespace(s[0])
    requires forall i :: 0 <= i < |w| ==> IsWhitespace(w[i])
    ensures TrimStart(w + s) == s
    decreases |w|
  {
    if |w| > 0 {
      assert (w + s)[1..] == w[1..] + s;
      TrimStartPrependSpace(w[1..], s);
    } else {
      assert w + s == s;
    }
  }

  /** The ASCII case mapping of `toLowerCase`. */
  function LowerChar(c: char): char {
    if 'A' <= c <= 'Z' then (c as int + 32) as char else c
  }

  /** `s.toLowerCase()`, on ASCII letters. */
  function ToLower(s: string): (r: string)
    ensures |r| == |s|
    ensures forall i :: 0 <= i < |s| ==> r[i] == LowerChar(s[i])
  {
    if s == [] then [] else [LowerChar(s[0])] + ToLower(s[1..])
  }

  lemma LowerCharWhitespace(c: char)
    ensures IsWhitespace(LowerChar(c)) <==> IsWhitespace(c)
  {
    if 'A' <= c <= 'Z' {
      assert 'a' <= LowerChar(c) <= 'z';
    }
  }

  predicate IsLower(s: string) {
    ToLower(s) == s
  }

  lemma ToLowerIdempotent(s: string)
    ensures ToLower(ToLower(s)) == ToLower(s)
  {
    assert forall i :: 0 <= i < |s| ==> LowerChar(LowerChar(s[i])) == LowerChar(s[i]);
  }

  lemma ToLowerAppend(a: string, b: string)
    ensures ToLower(a + b) == ToLower(a) + ToLower(b)
  {
    var l := ToLower(a + b);
    var r := ToLower(a) + ToLower(b);
    forall i | 0 <= i < |l| ensures l[i] == r[i] {
      if i < |a| {
        assert (a + b)[i] == a[i];
      } else {
        assert (a + b)[i] == b[i - |a|];
      }
    }
  }

  /** `s.startsWith(p)` */
  predicate StartsWith(s: string, p: string) {
    |p| <= |s| && s[..|p|] == p
  }

  /** `s.endsWith(p)` */
  predicate EndsWith(s: string, p: string) {
    |p| <= |s| && s[|s| - |p|..] == p
  }

  /** `p` occurs in `s` starting at index `i`. */
  predicate OccursAt(s: string, p: string, i: int) {
    0 <= i && i + |p| <= |s| && s[i..i + |p|] == p
  }

  /** `s.includes(p)` */
  predicate Contains(s: string, p: string) {
    exists i :: 0 <= i <= |s| && OccursAt(s, p, i)
  }

  /** The first occurrence of `p` in `s` at or after index `from`. */
  function FindFrom(s: string, p: string, from: nat): (r: Option<nat>)
    requires from <= |s|
    ensures r.Some? ==> from <= r.value && OccursAt(s, p, r.value)
    ensures r.Some? ==> forall j :: from <= j < r.value ==> !OccursAt(s, p, j)
    ensures r.None? ==> forall j :: from <= j ==> !OccursAt(s, p, j)
    decreases |s| - from
  {
    if from + |p| > |s| then None
    else if s[from..from + |p|] == p then Some(from)
    else if from == |s| then None
    else FindFrom(s, p, from + 1)
  }

  /** `s.indexOf(p)`, as an option. */
  function IndexOf(s: string, p: string): (r: Option<nat>)
    ensures r.Some? ==> OccursAt(s, p, r.value)
    ensures r.Some? ==> forall j :: 0 <= j < r.value ==> !OccursAt(s, p, j)
    ensures r.None? <==> !Contains(s, p)
  {
    FindFrom(s, p, 0)
  }

  /** `s.split(p)` for a non-empty separator: the pieces between the non-overlapping
      occurrences of `p`, found from left to right. */
  function Split(s: string, p: string): (r: seq<string>)
    requires |p| > 0
    ensures |r| >= 1
    decreases |s|
  {
    match IndexOf(s, p)
    case None => [s]
    case Some(i) => [s[..i]] + Split(s[i + |p|..], p)
  }

  /** `parts.join(sep)` */
  function Join(parts: seq<string>, sep: string): string {
    if |parts| == 0 then ""
    else if |parts| == 1 then parts[0]
    else parts[0] + sep + Join(parts[1..], sep)
  }

  /** The last element of a non-empty sequence (JavaScript's `pop()`). */
  function Last<T>(xs: seq<T>): T
    requires |xs| > 0
  {
    xs[|xs| - 1]
  }

  /** Every non-overlapping occurrence of the non-empty pattern `p` replaced by `r`
      taken literally. This is `s.replaceAll(p, r)` for every replacement without a
      `$`, as all constant replacements in the extension are; `JsReplaceAll` is the
      general case. */
  function ReplaceAll(s: string, p: string, r: string): string
    requires |p| > 0
  {
    Join(Split(s, p), r)
  }

  /** JavaScript's expansion of a replacement text for one match (GetSubstitution of
      section 22.1.3.19.1 of ECMAScript 2023, for a string pattern, which has no
      captures): `$$` is `$`, `$&` the match, `` $` `` the text before it and `$'` the
      text after it; any other `$` stays as it is. */
  function Expand(r: string, matched: string, before: string, after: string): string
    decreases |r|
  {
    if r == [] then []
    else if r[0] == '$' && |r| >= 2 && r[1] in "$&`'" then
      (if r[1] == '$' then "$" else if r[1] == '&' then matched else if r[1] == '`' then before else after) +
      Expand(r[2..], matched, before, after)
    else [r[0]] + Expand(r[1..], matched, before, after)
  }

  /** `s.replaceAll(p, r)` for a non-empty string pattern `p`: the matches are found as
      `Split` finds them, and each is replaced by the expansion of `r` for it. */
  function JsReplaceAll(s: string, p: string, r: string): string
    requires |p| > 0
  {
    ReplaceRest("", s, p, r)
  }

  /** The replacement of the matches in `s`, the part of the subject after `done`. */
  function ReplaceRest(done: string, s: string, p: string, r: string): string
    requires |p| > 0
    decreases |s|
  {
    match IndexOf(s, p)
    case None => s
    case Some(i) =>
      s[..i] + Expand(r, p, done + s[..i], s[i + |p|..]) + ReplaceRest(done + s[..i + |p|], s[i + |p|..], p, r)
  }

  /** `s.split(p)[0] || ""`, including the empty separator, which splits into characters. */
  function BeforeFirst(s: string, p: string): (r: string)
    ensures StartsWith(s, r)
  {
    if |p| == 0 then (if s == [] then [] else [s[0]])
    else Split(s, p)[0]
  }

  /** The loop `while (s.endsWith(c)) s = s.substring(0, s.length - 1)`, as a function. */
  function StripTrailing(s: string, c: char): (r: string)
    ensures |r| <= |s| && r == s[..|r|]
    ensures r == [] || r[|r| - 1] != c
    ensures forall i :: |r| <= i < |s| ==> s[i] == c
  {
    if |s| > 0 && s[|s| - 1] == c then StripTrailing(s[..|s| - 1], c) else s
  }

  /** Node's POSIX `path.basename`: trailing slashes are ignored and the text after the
      last remaining slash is kept. */
  function Basename(path: string): (r: string)
    ensures '/' !in r
  {
    var parts := Split(StripTrailing(path, '/'), "/");
    SplitPiecesAvoidChar(StripTrailing(path, '/'), '/');
    Last(parts)
  }

  /** The number of UTF-16 code units of a character. */
  function Utf16Width(c: char): nat {
    if c as int >= 0x1_0000 then 2 else 1
  }

  /** The UTF-16 code units of a string, as JavaScript stores it. */
  function Utf16(s: string): (r: seq<int>)
    ensures |r| >= |s|
    ensures forall i :: 0 <= i < |r| ==> 0 <= r[i] < 0x1_0000
  {
    if s == [] then []
    else
      var c := s[0] as int;
      (if c >= 0x1_0000
       then [0xD800 + (c - 0x1_0000) / 0x400, 0xDC00 + (c - 0x1_0000) % 0x400]
       else [c])
      + Utf16(s[1..])
  }

  /** A JavaScript string's `length`. */
  function JsLength(s: string): nat {
    |Utf16(s)|
  }

  lemma JsLengthEmpty(s: string)
    ensures JsLength(s) == 0 <==> s == []
  {
  }

  /** `String(n)` for a natural number. */
  function NatToString(n: nat): (r: string)
    ensures |r| >= 1
    ensures forall i :: 0 <= i < |r| ==> IsDigit(r[i])
  {
    if n < 10 then [('0' as int + n) as char]
    else NatToString(n / 10) + [('0' as int + n % 10) as char]
  }

  /** `String(n)` for an integer. */
  function IntToString(n: int): string {
    if n < 0 then "-" + NatToString(-n) else NatToString(n)
  }

  function DigitValue(c: char): nat
    requires IsDigit(c)
  {
    c as int - '0' as int
  }

  /** The value of a string of decimal digits (`parseInt` on it). */
  function DigitsValue(s: string): nat
    requires forall i :: 0 <= i < |s| ==> IsDigit(s[i])
  {
    if s == [] then 0 else DigitsValue(s[..|s| - 1]) * 10 + DigitValue(s[|s| - 1])
  }

  lemma {:induction false} DigitsValueNatToString(n: nat)
    ensures DigitsValue(NatToString(n)) == n
  {
    if n >= 10 {
      var s := NatToString(n);
      assert s[..|s| - 1] == NatToString(n / 10);
      DigitsValueNatToString(n / 10);
    }
  }

  /** The lower-case hexadecimal digit of a value below 16. */
  function HexDigit(d: nat): (c: char)
    requires d < 16
  {
    if d < 10 then ('0' as int + d) as char else ('a' as int + d - 10) as char
  }

  predicate IsHexDigit(c: char) {
    '0' <= c <= '9' || 'a' <= c <= 'f'
  }

  function HexDigitValue(c: char): nat
    requires IsHexDigit(c)
  {
    if c <= '9' then c as int - '0' as int else c as int - 'a' as int + 10
  }

  /** `n.toString(16)` for a natural number. */
  function HexString(n: nat): (r: string)
    ensures |r| >= 1
    ensures forall i :: 0 <= i < |r| ==> IsHexDigit(r[i])
  {
    if n < 16 then [HexDigit(n)] else HexString(n / 16) + [HexDigit(n % 16)]
  }

  /** The value of a string of lower-case hexadecimal digits. */
  function HexValue(s: string): nat
    requires forall i :: 0 <= i < |s| ==> IsHexDigit(s[i])
  {
    if s == [] then 0 else HexValue(s[..|s| - 1]) * 16 + HexDigitValue(s[|s| - 1])
  }

  /** Reading back `n.toString(16)` gives `n`. */
  lemma {:induction false} HexValueHexString(n: nat)
    ensures HexValue(HexString(n)) == n
  {
    if n >= 16 {
      var s := HexString(n);
      assert s[..|s| - 1] == HexString(n / 16);
      HexValueHexString(n / 16);
    }
  }

  // ---------------------------------------------------------------------------
  // Facts about Split, Join and ReplaceAll

  lemma JoinOne(s: string, sep: string)
    ensures Join([s], sep) == s
  {
  }

  lemma JoinCons(x: string, xs: seq<string>, sep: string)
    requires |xs| >= 1
    ensures Join([x] + xs, sep) == x + sep + Join(xs, sep)
  {
    assert ([x] + xs)[1..] == xs;
  }

  /** Joining the pieces of a split with the separator gives the string back. */
  lemma {:induction false} JoinSplit(s: string, p: string)
    requires |p| > 0
    ensures Join(Split(s, p), p) == s
    decreases |s|
  {
    if IndexOf(s, p).Some? {
      var i := IndexOf(s, p).value;
      var rest := s[i + |p|..];
      assert Split(s, p) == [s[..i]] + Split(rest, p);
      JoinSplit(rest, p);
      JoinCons(s[..i], Split(rest, p), p);
      assert s[i..i + |p|] == p;
      assert s == s[..i] + s[i..i + |p|] + rest;
    }
  }

  /** A string that does not contain the separator splits into itself. */
  lemma SplitAbsent(s: string, p: string)
    requires |p| > 0 && !Contains(s, p)
    ensures Split(s, p) == [s]
  {
  }

  /** Replacing a pattern that does not occur changes nothing. */
  lemma ReplaceAllAbsent(s: string, p: string, r: string)
    requires |p| > 0 && !Contains(s, p)
    ensures ReplaceAll(s, p, r) == s
  {
    SplitAbsent(s, p);
  }

  lemma ContainsSingle(s: string, c: char)
    ensures Contains(s, [c]) <==> c in s
  {
    if c in s {
      var i :| 0 <= i < |s| && s[i] == c;
      assert OccursAt(s, [c], i);
    }
    if Contains(s, [c]) {
      var i :| 0 <= i <= |s| && OccursAt(s, [c], i);
      assert s[i..i + 1][0] == s[i];
    }
  }

  /** The first piece of a split contains no occurrence of the separator. */
  lemma {:induction false} SplitPiecesAvoid(s: string, p: string)
    requires |p| > 0
    ensures forall k :: 0 <= k < |Split(s, p)| ==> !Contains(Split(s, p)[k], p)
    decreases |s|
  {
    match IndexOf(s, p)
    case None =>
    case Some(i) =>
      var head := s[..i];
      forall j | OccursAt(head, p, j) ensures false {
        assert head[j..j + |p|] == s[j..j + |p|];
        assert OccursAt(s, p, j);
      }
      SplitPiecesAvoid(s[i + |p|..], p);
  }

  lemma SplitPiecesAvoidChar(s: string, c: char)
    ensures forall k :: 0 <= k < |Split(s, [c])| ==> c !in Split(s, [c])[k]
  {
    SplitPiecesAvoid(s, [c]);
    forall k | 0 <= k < |Split(s, [c])| ensures c !in Split(s, [c])[k] {
      ContainsSingle(Split(s, [c])[k], c);
    }
  }

  /** The first occurrence of a one-character separator after a piece without it. */
  lemma IndexOfAfterPiece(a: string, c: char, b: string)
    requires c !in a
    ensures IndexOf(a + [c] + b, [c]) == Some(|a|)
  {
    var s := a + [c] + b;
    assert OccursAt(s, [c], |a|);
    forall j | 0 <= j < |a| ensures !OccursAt(s, [c], j) {
      assert s[j] == a[j];
    }
  }

  /** Splitting a join on a one-character separator that no part contains returns the parts. */
  lemma {:induction false} SplitJoin(parts: seq<string>, c: char)
    requires |parts| >= 1
    requires forall k :: 0 <= k < |parts| ==> c !in parts[k]
    ensures Split(Join(parts, [c]), [c]) == parts
    decreases |parts|
  {
    if |parts| == 1 {
      ContainsSingle(parts[0], c);
      SplitAbsent(parts[0], [c]);
    } else {
      var rest := Join(parts[1..], [c]);
      assert Join(parts, [c]) == parts[0] + [c] + rest;
      SplitAfterPiece(parts[0], c, rest);
      SplitJoin(parts[1..], c);
      assert parts == [parts[0]] + parts[1..];
    }
  }

  /** Splitting after a first piece without the separator splits off that piece. */
  lemma SplitAfterPiece(a: string, c: char, b: string)
    requires c !in a
    ensures Split(a + [c] + b, [c]) == [a] + Split(b, [c])
  {
    var s := a + [c] + b;
    IndexOfAfterPiece(a, c, b);
    assert s[..|a|] == a;
    assert s[|a| + 1..] == b;
  }

  /** Replacing a one-character separator in a join replaces exactly the joints. */
  lemma ReplaceAllJoin(parts: seq<string>, c: char, r: string)
    requires |parts| >= 1
    requires forall k :: 0 <= k < |parts| ==> c !in parts[k]
    ensures ReplaceAll(Join(parts, [c]), [c], r) == Join(parts, r)
  {
    SplitJoin(parts, c);
  }

  /** Replacing a pattern that is the whole string gives the replacement. */
  lemma ReplaceAllWhole(p: string, r: string)
    requires |p| > 0
    ensures ReplaceAll(p, p, r) == r
  {
    assert p[0..|p|] == p;
    assert IndexOf(p, p) == Some(0);
    assert p[|p|..] == "" && p[..0] == "";
    assert IndexOf("", p) == None;
    assert Split("", p) == [""];
    assert Split(p, p) == [""] + [""];
    JoinCons("", [""], r);
  }

  /** Splitting at the first space: the head is the text before it, the rest joins back
      to the text after it. */
  lemma SplitFirstSpace(s: string)
    ensures ' ' !in s ==> Split(s, " ") == [s]
    ensures forall i :: 0 <= i < |s| && s[i] == ' ' && ' ' !in s[..i] ==>
      Split(s, " ")[0] == s[..i] && Join(Split(s, " ")[1..], " ") == s[i + 1..]
  {
    ContainsSingle(s, ' ');
    forall i | 0 <= i < |s| && s[i] == ' ' && ' ' !in s[..i]
      ensures Split(s, " ")[0] == s[..i] && Join(Split(s, " ")[1..], " ") == s[i + 1..]
    {
      SplitAtFirstSpace(s, i);
    }
  }

  lemma SplitAtFirstSpace(s: string, i: nat)
    requires i < |s| && s[i] == ' ' && ' ' !in s[..i]
    ensures Split(s, " ")[0] == s[..i] && Join(Split(s, " ")[1..], " ") == s[i + 1..]
  {
    assert s == s[..i] + [' '] + s[i + 1..];
    IndexOfAfterPiece(s[..i], ' ', s[i + 1..]);
    JoinSplit(s[i + 1..], " ");
  }

  /** The last piece of a split on a character has no such character and ends the
      string, right after the last occurrence of the character when there is one. */
  lemma SplitLastChar(s: string, c: char)
    ensures c !in Last(Split(s, [c]))
    ensures EndsWith(s, Last(Split(s, [c])))
    ensures c in s ==> EndsWith(s, [c] + Last(Split(s, [c])))
    ensures c !in s ==> Last(Split(s, [c])) == s
  {
    var pieces := Split(s, [c]);
    SplitPiecesAvoidChar(s, c);
    assert c !in pieces[|pieces| - 1];
    ContainsSingle(s, c);
    SplitLastSuffix(s, [c]);
  }

  lemma EndsWithTrans(s: string, t: string, u: string)
    requires EndsWith(s, t) && EndsWith(t, u)
    ensures EndsWith(s, u)
  {
    assert s[|s| - |u|..] == s[|s| - |t|..][|t| - |u|..];
  }

  /** The last piece of a split ends the string, right after an occurrence of the
      separator when there is one. */
  lemma {:induction false} SplitLastSuffix(s: string, p: string)
    requires |p| > 0
    ensures EndsWith(s, Last(Split(s, p)))
    ensures Contains(s, p) ==> EndsWith(s, p + Last(Split(s, p)))
    ensures !Contains(s, p) ==> Last(Split(s, p)) == s
    decreases |s|
  {
    match IndexOf(s, p)
    case None =>
      assert Split(s, p) == [s];
      assert s[|s| - |s|..] == s;
    case Some(i) =>
      var rest := s[i + |p|..];
      SplitAtMatch(s, p, i);
      LastOfCons(s[..i], Split(rest, p));
      SplitLastSuffix(rest, p);
      SuffixAfterMatch(s, p, i, Last(Split(rest, p)));
  }

  lemma LastOfCons<T>(x: T, tail: seq<T>)
    requires |tail| > 0
    ensures Last([x] + tail) == Last(tail)
  {
  }

  /** A split at its first match: the text before it, then the pieces of the rest. */
  lemma SplitAtMatch(s: string, p: string, i: nat)
    requires |p| > 0 && IndexOf(s, p) == Some(i)
    ensures Split(s, p) == [s[..i]] + Split(s[i + |p|..], p)
  {
  }

  /** What ends the text after a match of `p` at `i` ends `s`, and so does `p` with it
      when that text holds no further match. */
  lemma SuffixAfterMatch(s: string, p: string, i: nat, l: string)
    requires |p| > 0 && IndexOf(s, p) == Some(i)
    requires EndsWith(s[i + |p|..], l)
    requires Contains(s[i + |p|..], p) ==> EndsWith(s[i + |p|..], p + l)
    requires !Contains(s[i + |p|..], p) ==> l == s[i + |p|..]
    ensures EndsWith(s, l) && EndsWith(s, p + l)
  {
    var rest := s[i + |p|..];
    assert s[i..i + |p|] == p;
    assert s[|s| - |rest|..] == rest;
    EndsWithTrans(s, rest, l);
    if Contains(rest, p) {
      EndsWithTrans(s, rest, p + l);
    } else {
      assert s[|s| - |rest| - |p|..] == p + rest;
    }
  }

  /** Joining a concatenation of two non-empty lists puts one separator between them. */
  lemma {:induction false} JoinAppend(a: seq<string>, b: seq<string>, sep: string)
    requires |a| >= 1 && |b| >= 1
    ensures Join(a + b, sep) == Join(a, sep) + sep + Join(b, sep)
    decreases |a|
  {
    if |a| == 1 {
      JoinCons(a[0], b, sep);
      assert a + b == [a[0]] + b;
    } else {
      JoinAppend(a[1..], b, sep);
      assert a + b == [a[0]] + (a[1..] + b);
      JoinCons(a[0], a[1..] + b, sep);
      JoinCons(a[0], a[1..], sep);
      assert a == [a[0]] + a[1..];
    }
  }

  /** Two pieces in front of a list of parts and one after, joined. */
  lemma JoinAround(x: string, y: string, middle: seq<string>, z: string, p: string)
    requires |middle| >= 1
    ensures Join([x, y] + middle + [z], p) == x + p + y + p + Join(middle, p) + p + z
  {
    var tail := middle + [z];
    JoinAppend(middle, [z], p);
    JoinAppend([x, y], tail, p);
    assert Join([x, y], p) == x + p + y;
    assert [x, y] + middle + [z] == [x, y] + tail;
  }

  /** Splitting a join of separator-free parts, followed by a separator and more text,
      gives the parts followed by the pieces of that text. */
  lemma {:induction false} SplitJoinPrefix(parts: seq<string>, c: char, text: string)
    requires |parts| >= 1
    requires forall k :: 0 <= k < |parts| ==> c !in parts[k]
    ensures Split(Join(parts, [c]) + [c] + text, [c]) == parts + Split(text, [c])
    decreases |parts|
  {
    if |parts| == 1 {
      SplitAfterPiece(parts[0], c, text);
    } else {
      var rest := Join(parts[1..], [c]) + [c] + text;
      JoinCons(parts[0], parts[1..], [c]);
      assert parts == [parts[0]] + parts[1..];
      assert Join(parts, [c]) + [c] + text == parts[0] + [c] + rest;
      SplitAfterPiece(parts[0], c, rest);
      SplitJoinPrefix(parts[1..], c, text);
    }
  }

  /** Replacing a one-character separator keeps every other character of the string. */
  lemma {:induction false} ReplaceAllKeeps(s: string, c: char, r: string, i: nat)
    requires i < |s| && s[i] != c
    ensures s[i] in ReplaceAll(s, [c], r)
    decreases |s|
  {
    match IndexOf(s, [c])
    case None =>
      assert Split(s, [c]) == [s];
    case Some(j) =>
      var rest := s[j + 1..];
      assert Split(s, [c]) == [s[..j]] + Split(rest, [c]);
      JoinCons(s[..j], Split(rest, [c]), r);
      assert ReplaceAll(s, [c], r) == s[..j] + r + ReplaceAll(rest, [c], r);
      assert s[j..j + 1] == [c];
      if i < j {
        assert s[..j][i] == s[i];
      } else {
        assert i > j;
        assert rest[i - j - 1] == s[i];
        ReplaceAllKeeps(rest, c, r, i - j - 1);
      }
  }
  /** A pattern with a character the string lacks does not occur in it. */
  lemma NotContainsMissingChar(s: string, p: string, k: nat)
    requires k < |p| && p[k] !in s
    ensures !Contains(s, p)
  {
    forall i | 0 <= i <= |s| ensures !OccursAt(s, p, i) {
      if i + |p| <= |s| {
        assert s[i..i + |p|][k] == s[i + k];
        assert s[i + k] in s;
      }
    }
  }

  /** Replacing the one occurrence of a pattern whose first character does not occur
      before it. */
  lemma ReplaceAllOnce(a: string, p: string, b: string, r: string)
    requires |p| > 0 && p[0] !in a && !Contains(b, p)
    ensures ReplaceAll(a + p + b, p, r) == a + r + b
  {
    var s := a + p + b;
    assert OccursAt(s, p, |a|);
    forall j | 0 <= j < |a| ensures !OccursAt(s, p, j) {
      assert s[j] == a[j];
      assert a[j] in a;
    }
    assert IndexOf(s, p) == Some(|a|);
    assert s[..|a|] == a && s[|a| + |p|..] == b;
    SplitAbsent(b, p);
    assert Split(s, p) == [a, b];
    assert Join([a, b], r) == a + r + Join([b], r);
  }

  // ---------------------------------------------------------------------------
  // `$` patterns in replacements

  /** A replacement without `$` is taken literally. */
  lemma {:induction false} ExpandLiteral(r: string, matched: string, before: string, after: string)
    requires '$' !in r
    ensures Expand(r, matched, before, after) == r
    decreases |r|
  {
    if r != [] {
      assert r[1..] == r[1..];
      assert forall c :: c in r[1..] ==> c in r;
      ExpandLiteral(r[1..], matched, before, after);
    }
  }

  /** Text without `$` in front of a replacement is copied as it is. */
  lemma {:induction false} ExpandAfterLiteral(a: string, t: string, matched: string, before: string, after: string)
    requires '$' !in a
    ensures Expand(a + t, matched, before, after) == a + Expand(t, matched, before, after)
    decreases |a|
  {
    if a == [] {
      assert a + t == t;
    } else {
      var r := a + t;
      assert a[0] in a;
      assert r[0] == a[0] && r[1..] == a[1..] + t;
      assert Expand(r, matched, before, after) == [a[0]] + Expand(r[1..], matched, before, after);
      assert forall c :: c in a[1..] ==> c in a;
      ExpandAfterLiteral(a[1..], t, matched, before, after);
      assert a == [a[0]] + a[1..];
    }
  }

  /** `$$` in a replacement gives one `$`. */
  lemma ExpandDollarDollar(a: string, b: string, matched: string, before: string, after: string)
    requires '$' !in a && '$' !in b
    ensures Expand(a + "$$" + b, matched, before, after) == a + "$" + b
  {
    assert a + "$$" + b == a + ("$$" + b);
    ExpandAfterLiteral(a, "$$" + b, matched, before, after);
    assert ("$$" + b)[2..] == b;
    ExpandLiteral(b, matched, before, after);
  }

  /** `$&` in a replacement puts the match itself back. */
  lemma ExpandMatch(matched: string, before: string, after: string)
    ensures Expand("$&", matched, before, after) == matched
  {
    assert "$&"[2..] == [];
  }

  /** With a replacement without `$`, JavaScript's `replaceAll` is the literal one. */
  lemma {:induction false} ReplaceRestLiteral(done: string, s: string, p: string, r: string)
    requires |p| > 0 && '$' !in r
    ensures ReplaceRest(done, s, p, r) == ReplaceAll(s, p, r)
    decreases |s|
  {
    match IndexOf(s, p)
    case None =>
      SplitAbsent(s, p);
    case Some(i) =>
      var rest := s[i + |p|..];
      ReplaceRestLiteral(done + s[..i + |p|], rest, p, r);
      ExpandLiteral(r, p, done + s[..i], rest);
      SplitAtMatch(s, p, i);
      JoinCons(s[..i], Split(rest, p), r);
  }

  lemma JsReplaceAllLiteral(s: string, p: string, r: string)
    requires |p| > 0 && '$' !in r
    ensures JsReplaceAll(s, p, r) == ReplaceAll(s, p, r)
  {
    ReplaceRestLiteral("", s, p, r);
  }

  /** A pattern that does not occur is not replaced, whatever the replacement. */
  lemma JsReplaceAllAbsent(s: string, p: string, r: string)
    requires |p| > 0 && !Contains(s, p)
    ensures JsReplaceAll(s, p, r) == s
  {
  }

  /** The one occurrence of a pattern whose first character does not occur before it
      is replaced by the expansion of the replacement for that match. */
  lemma JsReplaceAllOnce(a: string, p: string, b: string, r: string)
    requires |p| > 0 && p[0] !in a && !Contains(b, p)
    ensures JsReplaceAll(a + p + b, p, r) == a + Expand(r, p, a, b) + b
  {
    var s := a + p + b;
    FirstMatchAfter(a, p, b);
    ReplaceRestAtMatch("", s, p, r, |a|);
    assert "" + s[..|a|] == a && "" + s[..|a| + |p|] == a + p;
    ReplaceRestAbsent(a + p, b, p, r);
  }

  /** A pattern whose first character does not occur in `a` is first found right
      after `a`. */
  lemma FirstMatchAfter(a: string, p: string, b: string)
    requires |p| > 0 && p[0] !in a
    ensures IndexOf(a + p + b, p) == Some(|a|)
    ensures (a + p + b)[..|a|] == a && (a + p + b)[..|a| + |p|] == a + p && (a + p + b)[|a| + |p|..] == b
  {
    var s := a + p + b;
    assert OccursAt(s, p, |a|);
    forall j | 0 <= j < |a| ensures !OccursAt(s, p, j) {
      assert s[j] == a[j];
      assert a[j] in a;
    }
  }

  lemma ReplaceRestAtMatch(done: string, s: string, p: string, r: string, i: nat)
    requires |p| > 0 && IndexOf(s, p) == Some(i)
    ensures ReplaceRest(done, s, p, r) ==
      s[..i] + Expand(r, p, done + s[..i], s[i + |p|..]) + ReplaceRest(done + s[..i + |p|], s[i + |p|..], p, r)
  {
  }

  lemma ReplaceRestAbsent(done: string, s: string, p: string, r: string)
    requires |p| > 0 && !Contains(s, p)
    ensures ReplaceRest(done, s, p, r) == s
  {
  }
}
