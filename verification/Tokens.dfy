/** String-level helpers the mutation methods rely on: JavaScript's
    `String.prototype.split(" ")`, which `DOM.create` uses to turn its `class`
    option into tokens, and the validity rules the host applies to class tokens,
    attribute names and style keys before it mutates anything. */
module Tokens {

  /** ASCII whitespace as the WHATWG Infra standard defines it:
      TAB, LF, FF, CR and SPACE. */
  predicate IsAsciiWhitespace(ch: char) {
    ch == '\t' || ch == '\n' || ch == '\U{C}' || ch == '\r' || ch == ' '
  }

  /** A token that DOMTokenList `add` and `remove` accept (WHATWG DOM Living
      Standard, section 7.1): an empty token raises "SyntaxError", a token
      holding ASCII whitespace raises "InvalidCharacterError". */
  predicate ValidToken(t: string) {
    t != "" && forall i :: 0 <= i < |t| ==> !IsAsciiWhitespace(t[i])
  }

  predicate AllValidTokens(ts: seq<string>) {
    forall i :: 0 <= i < |ts| ==> ValidToken(ts[i])
  }

  /** A name `setAttribute` accepts: a valid attribute local name in the
      WHATWG DOM Living Standard — at least one code point, and no ASCII
      whitespace, NULL, "/", "=" or ">". Anything else raises
      "InvalidCharacterError". */
  predicate ValidAttrName(k: string) {
    && k != ""
    && forall i :: 0 <= i < |k| ==>
         !IsAsciiWhitespace(k[i]) && k[i] != '\0' && k[i] != '/' && k[i] != '=' && k[i] != '>'
  }

  /** An array index as section 6.1.7 of ECMA-262 defines it: the canonical
      decimal form of an integer from 0 to 2^32 - 2. */
  predicate IsArrayIndex(k: string) {
    && k != ""
    && (forall i :: 0 <= i < |k| ==> '0' <= k[i] <= '9')
    && (k[0] != '0' || |k| == 1)
    && DecimalValue(k, |k|) < 0xFFFF_FFFF
  }

  /** The number the first `n` characters of a digit string spell. */
  function DecimalValue(k: string, n: nat): int
    requires n <= |k|
  {
    if n == 0 then 0
    else 10 * DecimalValue(k, n - 1) + (k[n - 1] as int - '0' as int)
  }

  /** A key `Object.assign` can write onto a `CSSStyleDeclaration`. Its
      read-only attributes `length` and `parentRule` have no setter, and the
      object, a legacy platform object with indexed properties but no indexed
      setter, refuses every array-index key; either way the assignment fails
      and `Object.assign` throws a TypeError. Any other key is written. */
  predicate WritableStyleKey(k: string) {
    k != "length" && k != "parentRule" && !IsArrayIndex(k)
  }

  /** Splitting at every single space, as JavaScript's `split` with a one-space
      separator does: empty pieces are kept, so the empty string gives one
      empty piece and two spaces in a row give an empty piece between them. */
  function Split(s: string): (r: seq<string>)
    ensures |r| >= 1
    ensures forall i :: 0 <= i < |r| ==> ' ' !in r[i]
    decreases |s|
  {
    if |s| == 0 then [""]
    else
      var rest := Split(s[1..]);
      if s[0] == ' ' then [""] + rest
      else [[s[0]] + rest[0]] + rest[1..]
  }

  /** Joining with one space between pieces, the inverse of `Split`. */
  function Join(parts: seq<string>): string
    requires |parts| >= 1
  {
    if |parts| == 1 then parts[0] else parts[0] + " " + Join(parts[1..])
  }

  /** Splitting distributes over a separating space. */
  lemma {:induction false} SplitAroundSpace(x: string, y: string)
    ensures Split(x + " " + y) == Split(x) + Split(y)
    decreases |x|
  {
    if |x| == 0 {
      assert x + " " + y == " " + y;
      assert (" " + y)[1..] == y;
    } else {
      var s := x + " " + y;
      assert s[0] == x[0];
      assert s[1..] == x[1..] + " " + y;
      SplitAroundSpace(x[1..], y);
    }
  }

  /** A piece without spaces splits into itself. */
  lemma {:induction false} SplitNoSpace(a: string)
    requires ' ' !in a
    ensures Split(a) == [a]
    decreases |a|
  {
    if |a| > 0 {
      assert ' ' !in a[1..] by {
        forall i | 0 <= i < |a[1..]| ensures a[1..][i] != ' ' {
          assert a[1..][i] == a[i + 1];
        }
      }
      SplitNoSpace(a[1..]);
      assert [a[0]] + a[1..] == a;
    }
  }

  /** Round trip one way: joining the pieces gives back the string. */
  lemma {:induction false} JoinSplit(s: string)
    ensures Join(Split(s)) == s
    decreases |s|
  {
    if |s| > 0 {
      var rest := Split(s[1..]);
      JoinSplit(s[1..]);
      if s[0] == ' ' {
        assert ([""] + rest)[1..] == rest;
      } else if |rest| > 1 {
        var r := [[s[0]] + rest[0]] + rest[1..];
        assert r[1..] == rest[1..];
        assert Join(rest) == rest[0] + " " + Join(rest[1..]);
      }
      assert [s[0]] + s[1..] == s;
    }
  }

  /** Round trip the other way: space-free pieces survive join then split. */
  lemma {:induction false} SplitJoin(parts: seq<string>)
    requires |parts| >= 1
    requires forall i :: 0 <= i < |parts| ==> ' ' !in parts[i]
    ensures Split(Join(parts)) == parts
    decreases |parts|
  {
    SplitNoSpace(parts[0]);
    if |parts| > 1 {
      SplitJoin(parts[1..]);
      SplitAroundSpace(parts[0], Join(parts[1..]));
      assert [parts[0]] + parts[1..] == parts;
    }
  }

  /** Two consecutive spaces always produce an empty piece, which no
      DOMTokenList operation accepts. */
  lemma DoubleSpaceGivesInvalidToken(x: string, y: string)
    ensures "" in Split(x + "  " + y)
    ensures !AllValidTokens(Split(x + "  " + y))
  {
    assert x + "  " + y == x + " " + (" " + y);
    SplitAroundSpace(x, " " + y);
    SplitAroundSpace("", y);
    assert "" + " " + y == " " + y;
    var r := Split(x + "  " + y);
    assert r[|Split(x)|] == "";
  }
}
