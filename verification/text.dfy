/**
 * The JavaScript string operations the chat controller relies on:
 * `String.prototype.trim`, `split`, `includes`, `endsWith`, and the
 * inverse of `split` (joining parts with the separator).
 */
module Text {

  /** The characters that JavaScript's `trim` removes (WhiteSpace and LineTerminator). */
  predicate IsSpace(c: char) {
    || c == ' ' || c == '\t' || c == '\n' || c == '\r'
    || c == '\U{000B}' || c == '\U{000C}' || c == '\U{00A0}' || c == '\U{1680}'
    || ('\U{2000}' <= c <= '\U{200A}')
    || c == '\U{2028}' || c == '\U{2029}' || c == '\U{202F}' || c == '\U{205F}'
    || c == '\U{3000}' || c == '\U{FEFF}'
  }

  /** Removes the leading white space: the result is the longest suffix not starting with a space. */
  function TrimStart(s: string): (r: string)
    ensures |r| <= |s| && r == s[|s| - |r|..]
    ensures forall k :: 0 <= k < |s| - |r| ==> IsSpace(s[k])
    ensures r == [] || !IsSpace(r[0])
  {
    if s != [] && IsSpace(s[0]) then TrimStart(s[1..]) else s
  }

  /** Removes the trailing white space: the result is the longest prefix not ending in a space. */
  function TrimEnd(s: string): (r: string)
    ensures |r| <= |s| && r == s[..|r|]
    ensures forall k :: |r| <= k < |s| ==> IsSpace(s[k])
    ensures r == [] || !IsSpace(r[|r| - 1])
  {
    if s != [] && IsSpace(s[|s| - 1]) then TrimEnd(s[..|s| - 1]) else s
  }

  /** JavaScript's `s.trim()`. */
  function Trim(s: string): (r: string)
    ensures r == [] || (!IsSpace(r[0]) && !IsSpace(r[|r| - 1]))
  {
    TrimEnd(TrimStart(s))
  }

  /** JavaScript's `s.startsWith(p)`. */
  predicate StartsWith(s: string, p: string) {
    p <= s
  }

  /** JavaScript's `s.endsWith(t)`. */
  predicate EndsWith(s: string, t: string) {
    |t| <= |s| && s[|s| - |t|..] == t
  }

  /** JavaScript's `s.includes(t)`: some position of `s` starts a copy of `t`. */
  predicate Includes(s: string, t: string)
    decreases |s|
  {
    if |s| < |t| then false else s[..|t|] == t || Includes(s[1..], t)
  }

  /** A copy of `t` anywhere in `s` is found by `Includes`. */
  lemma {:induction false} IncludesAt(s: string, t: string, i: nat)
    requires i + |t| <= |s| && s[i..i + |t|] == t
    ensures Includes(s, t)
    decreases i
  {
    if i > 0 {
      assert s[1..][i - 1..i - 1 + |t|] == s[i..i + |t|];
      IncludesAt(s[1..], t, i - 1);
    } else {
      assert s[..|t|] == s[i..i + |t|];
    }
  }

  /** Where `Includes` holds, a copy of `t` starts at some position of `s`. */
  lemma {:induction false} IncludesFound(s: string, t: string) returns (i: nat)
    requires Includes(s, t)
    ensures i + |t| <= |s| && s[i..i + |t|] == t
    decreases |s|
  {
    if s[..|t|] == t {
      i := 0;
    } else {
      var j := IncludesFound(s[1..], t);
      i := j + 1;
      assert s[1..][j..j + |t|] == s[i..i + |t|];
    }
  }

  /** Position `i` of `s` starts a copy of `t`. */
  predicate CopyAt(s: string, t: string, i: int)
  {
    0 <= i && i + |t| <= |s| && s[i..i + |t|] == t
  }

  /** `Includes` holds exactly when some position of `s` starts a copy of `t`. */
  lemma IncludesIff(s: string, t: string)
    ensures Includes(s, t) <==> exists i :: CopyAt(s, t, i)
  {
    if Includes(s, t) {
      var i := IncludesFound(s, t);
      assert CopyAt(s, t, i);
    }
    if exists i :: CopyAt(s, t, i) {
      var i :| CopyAt(s, t, i);
      IncludesAt(s, t, i);
    }
  }

  /** `StartsWith` holds exactly when `s` is `p` followed by some text. */
  lemma StartsWithIff(s: string, p: string)
    ensures StartsWith(s, p) <==> exists u :: s == p + u
  {
    if StartsWith(s, p) {
      assert s == p + s[|p|..];
    }
  }

  /** `EndsWith` holds exactly when `s` is some text followed by `t`. */
  lemma EndsWithIff(s: string, t: string)
    ensures EndsWith(s, t) <==> exists u :: s == u + t
  {
    if EndsWith(s, t) {
      assert s == s[..|s| - |t|] + t;
    }
    if exists u :: s == u + t {
      var u :| s == u + t;
      assert s[|s| - |t|..] == t;
    }
  }

  /** The inverse of `Split`: the parts separated by `sep`. */
  function Join(parts: seq<string>, sep: string): string
  {
    if |parts| == 0 then ""
    else if |parts| == 1 then parts[0]
    else parts[0] + sep + Join(parts[1..], sep)
  }

  /**
   * JavaScript's `s.split(sep)` for a non-empty separator: the separator's
   * occurrences are found from left to right without overlapping, and the
   * text between them is returned, including empty pieces. Each match is
   * the leftmost one after the previous match, as in JavaScript; for runs
   * of newlines this decides where empty pieces fall, which the frame
   * parser does not notice because it drops empty lines.
   */
  function Split(s: string, sep: string): (r: seq<string>)
    requires |sep| > 0
    ensures |r| >= 1 && r[0] <= s
    decreases |s|
  {
    if |s| < |sep| then [s]
    else if s[..|sep|] == sep then [""] + Split(s[|sep|..], sep)
    else
      var rest := Split(s[1..], sep);
      [[s[0]] + rest[0]] + rest[1..]
  }

  /** The last part of a split: the text after the last separator. */
  function LastPart(parts: seq<string>): string
    requires |parts| > 0
  {
    parts[|parts| - 1]
  }

  /** Joining the parts of a split with the separator gives back the text. */
  lemma {:induction false} JoinSplit(s: string, sep: string)
    requires |sep| > 0
    ensures Join(Split(s, sep), sep) == s
    decreases |s|
  {
    if |s| < |sep| {
    } else if s[..|sep|] == sep {
      var rest := Split(s[|sep|..], sep);
      JoinSplit(s[|sep|..], sep);
      JoinCons("", rest, sep);
      assert s == s[..|sep|] + s[|sep|..];
    } else {
      var rest := Split(s[1..], sep);
      JoinSplit(s[1..], sep);
      JoinPrependChar(s[0], rest, sep);
      assert s == [s[0]] + s[1..];
    }
  }

  /** Joining a part in front of other parts puts the separator between. */
  lemma JoinCons(h: string, rest: seq<string>, sep: string)
    requires |rest| >= 1
    ensures Join([h] + rest, sep) == h + sep + Join(rest, sep)
  {
    assert ([h] + rest)[1..] == rest;
  }

  /** Prepending a character to the first part prepends it to the joined text. */
  lemma JoinPrependChar(x: char, rest: seq<string>, sep: string)
    requires |rest| >= 1
    ensures Join([[x] + rest[0]] + rest[1..], sep) == [x] + Join(rest, sep)
  {
    var head := [x] + rest[0];
    if |rest| == 1 {
      assert Join([head], sep) == head;
    } else {
      assert ([head] + rest[1..])[1..] == rest[1..];
      assert Join(rest, sep) == rest[0] + sep + Join(rest[1..], sep);
    }
  }

  /** All parts of a split except the last. */
  function AllButLast(parts: seq<string>): seq<string>
    requires |parts| > 0
  {
    parts[..|parts| - 1]
  }

  /** No part that `Split` returns contains the separator. */
  lemma {:induction false} SplitPartsExcludeSeparator(s: string, sep: string)
    requires |sep| > 0
    ensures forall k :: 0 <= k < |Split(s, sep)| ==> !Includes(Split(s, sep)[k], sep)
    decreases |s|
  {
    if |s| < |sep| {
      assert !Includes(s, sep);
    } else if s[..|sep|] == sep {
      SplitPartsExcludeSeparator(s[|sep|..], sep);
      assert !Includes("", sep);
    } else {
      var rest := Split(s[1..], sep);
      SplitPartsExcludeSeparator(s[1..], sep);
      var first := [s[0]] + rest[0];
      assert first <= s;
      assert first[1..] == rest[0];
      if |first| >= |sep| {
        assert first[..|sep|] == s[..|sep|];
      }
      assert !Includes(first, sep);
    }
  }

  /** A text without the separator splits into itself alone. */
  lemma {:induction false} SplitWithoutSeparator(s: string, sep: string)
    requires |sep| > 0 && !Includes(s, sep)
    ensures Split(s, sep) == [s]
    decreases |s|
  {
    if |s| >= |sep| {
      assert s[..|sep|] != sep && !Includes(s[1..], sep);
      SplitWithoutSeparator(s[1..], sep);
      assert [s[0]] + s[1..] == s;
    }
  }

  /**
   * Splitting is incremental: appending `c` to `s` leaves every complete
   * part of `s` in place and only re-splits its last part followed by `c`.
   */
  lemma {:induction false} SplitAppend(s: string, c: string, sep: string)
    requires |sep| > 0
    ensures Split(s + c, sep) == AllButLast(Split(s, sep)) + Split(LastPart(Split(s, sep)) + c, sep)
    decreases |s|
  {
    if |s| < |sep| {
    } else if s[..|sep|] == sep {
      SplitAppend(s[|sep|..], c, sep);
      SplitAppendSeparatorCase(s, c, sep);
    } else {
      SplitAppend(s[1..], c, sep);
      SplitAppendOtherCase(s, c, sep);
    }
  }

  lemma SplitAppendSeparatorCase(s: string, c: string, sep: string)
    requires |sep| > 0 && |s| >= |sep| && s[..|sep|] == sep
    requires var q := Split(s[|sep|..], sep);
      Split(s[|sep|..] + c, sep) == AllButLast(q) + Split(LastPart(q) + c, sep)
    ensures Split(s + c, sep) == AllButLast(Split(s, sep)) + Split(LastPart(Split(s, sep)) + c, sep)
  {
    SplitAfterSeparator(s, c, sep);
    var q := Split(s[|sep|..], sep);
    PrependPart("", q, Split(LastPart(q) + c, sep));
  }

  /**
   * Appending to a text whose split ends in `last` keeps the earlier parts
   * and re-splits `last` followed by the new text.
   */
  lemma SplitExtends(s: string, earlier: seq<string>, last: string, c: string, sep: string)
    requires |sep| > 0 && Split(s, sep) == earlier + [last]
    ensures Split(s + c, sep) == earlier + Split(last + c, sep)
  {
    SplitAppend(s, c, sep);
    assert AllButLast(earlier + [last]) == earlier;
  }

  /** Putting a part in front commutes with replacing the last part by other parts. */
  lemma PrependPart(h: string, q: seq<string>, tail: seq<string>)
    requires |q| >= 1
    ensures [h] + (AllButLast(q) + tail) == AllButLast([h] + q) + tail
    ensures LastPart([h] + q) == LastPart(q)
  {
    assert AllButLast([h] + q) == [h] + AllButLast(q);
  }

  lemma SplitAppendOtherCase(s: string, c: string, sep: string)
    requires |sep| > 0 && |s| >= |sep| && s[..|sep|] != sep
    requires var q := Split(s[1..], sep);
      Split(s[1..] + c, sep) == AllButLast(q) + Split(LastPart(q) + c, sep)
    ensures Split(s + c, sep) == AllButLast(Split(s, sep)) + Split(LastPart(Split(s, sep)) + c, sep)
  {
    SplitAfterOther(s, c, sep);
    var q := Split(s[1..], sep);
    assert Split(s, sep) == [[s[0]] + q[0]] + q[1..];
    if |q| == 1 {
      JoinSplit(s[1..], sep);
      assert [s[0]] + q[0] == s;
    } else {
      PrependToFirst(s[0], q, Split(LastPart(q) + c, sep));
    }
  }

  /**
   * Prepending a character to the first part commutes with replacing the
   * last part by other parts, when the first part is not the last.
   */
  lemma PrependToFirst(x: char, q: seq<string>, tail: seq<string>)
    requires |q| >= 2 && |tail| >= 1
    ensures var q' := AllButLast(q) + tail;
      var p := [[x] + q[0]] + q[1..];
      && [[x] + q'[0]] + q'[1..] == AllButLast(p) + tail
      && LastPart(p) == LastPart(q)
  {
    var q' := AllButLast(q) + tail;
    assert q'[0] == q[0];
    assert q'[1..] == AllButLast(q)[1..] + tail;
  }

  /** One unfolding of `Split` when `s + c` starts with the separator. */
  lemma SplitAfterSeparator(s: string, c: string, sep: string)
    requires |sep| > 0 && |s| >= |sep| && s[..|sep|] == sep
    ensures Split(s, sep) == [""] + Split(s[|sep|..], sep)
    ensures Split(s + c, sep) == [""] + Split(s[|sep|..] + c, sep)
  {
    assert (s + c)[..|sep|] == sep;
    assert (s + c)[|sep|..] == s[|sep|..] + c;
  }

  /** One unfolding of `Split` when `s + c` does not start with the separator. */
  lemma SplitAfterOther(s: string, c: string, sep: string)
    requires |sep| > 0 && |s| >= |sep| && s[..|sep|] != sep
    ensures var rest := Split(s[1..] + c, sep);
      Split(s + c, sep) == [[s[0]] + rest[0]] + rest[1..]
  {
    assert (s + c)[..|sep|] == s[..|sep|];
    assert (s + c)[1..] == s[1..] + c;
  }

  /** `xs.map(f)`: `f` applied to every element, in order. */
  function Map<A, B>(xs: seq<A>, f: A -> B): (r: seq<B>)
    ensures |r| == |xs|
  {
    if xs == [] then [] else Map(xs[..|xs| - 1], f) + [f(xs[|xs| - 1])]
  }

  /** Element `k` of a map is `f` of element `k`. */
  lemma {:induction false} MapIndex<A, B>(xs: seq<A>, f: A -> B, k: nat)
    requires k < |xs|
    ensures Map(xs, f)[k] == f(xs[k])
    decreases |xs|
  {
    if k < |xs| - 1 {
      MapIndex(xs[..|xs| - 1], f, k);
    }
  }

  /** Mapping consecutive groups gives consecutive groups. */
  lemma {:induction false} MapAppend<A, B>(a: seq<A>, b: seq<A>, f: A -> B)
    ensures Map(a + b, f) == Map(a, f) + Map(b, f)
    decreases |b|
  {
    if b == [] {
      assert a + b == a;
    } else {
      var ab := a + b;
      assert ab[..|ab| - 1] == a + b[..|b| - 1] && ab[|ab| - 1] == b[|b| - 1];
      MapAppend(a, b[..|b| - 1], f);
    }
  }

  /** The text of the chunks a stream delivers, in order: what `buffer += chunk` accumulates over the read loop. */
  function Concat(parts: seq<string>): string
  {
    if parts == [] then "" else parts[0] + Concat(parts[1..])
  }

  /** Concatenating consecutive groups of parts is concatenating their concatenations. */
  lemma {:induction false} ConcatAppend(a: seq<string>, b: seq<string>)
    ensures Concat(a + b) == Concat(a) + Concat(b)
    decreases |a|
  {
    if a == [] {
      assert a + b == b;
    } else {
      assert (a + b)[1..] == a[1..] + b;
      ConcatAppend(a[1..], b);
    }
  }

  /** Concatenates what `f` gives for every element, in order. */
  function ConcatMap<T>(xs: seq<T>, f: T -> string): string
  {
    if xs == [] then "" else ConcatMap(xs[..|xs| - 1], f) + f(xs[|xs| - 1])
  }

  /** `ConcatMap` of consecutive pieces is the concatenation of their results. */
  lemma {:induction false} ConcatMapAppend<T>(a: seq<T>, b: seq<T>, f: T -> string)
    ensures ConcatMap(a + b, f) == ConcatMap(a, f) + ConcatMap(b, f)
    decreases |b|
  {
    if b == [] {
      assert a + b == a;
    } else {
      var init := b[..|b| - 1];
      var ab := a + b;
      assert ab[..|ab| - 1] == a + init && ab[|ab| - 1] == b[|b| - 1];
      ConcatMapAppend(a, init, f);
    }
  }
}
