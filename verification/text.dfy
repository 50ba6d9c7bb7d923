/**
 * The JavaScript string primitives the validator relies on: the white-space
 * class shared by `\s` and `String.prototype.trim`, `trim` itself, and the
 * `length` property, which counts UTF-16 code units.
 */
module Text {

  /**
   * ECMAScript WhiteSpace and LineTerminator code points: tab, line feed,
   * vertical tab, form feed, carriage return, space, no-break space, the
   * byte-order mark and the Unicode space separators (Zs), plus the line and
   * paragraph separators. Both the regular-expression class `\s` and `trim`
   * use exactly this set.
   */
  predicate IsWs(c: char) {
    var n := c as int;
    || (0x09 <= n <= 0x0D)
    || n == 0x20
    || n == 0xA0
    || n == 0x1680
    || (0x2000 <= n <= 0x200A)
    || n == 0x2028
    || n == 0x2029
    || n == 0x202F
    || n == 0x205F
    || n == 0x3000
    || n == 0xFEFF
  }

  predicate AllWs(s: string) {
    forall k :: 0 <= k < |s| ==> IsWs(s[k])
  }

  /** `trimStart`: drop the leading white space; what remains is a suffix of `s`. */
  function TrimStart(s: string): (r: string)
    ensures |r| <= |s| && r == s[|s| - |r|..]
    ensures AllWs(s[..|s| - |r|])
    ensures r == [] || !IsWs(r[0])
  {
    if s != [] && IsWs(s[0]) then TrimStart(s[1..]) else s
  }

  /** `trimEnd`: drop the trailing white space; what remains is a prefix of `s`. */
  function TrimEnd(s: string): (r: string)
    ensures |r| <= |s| && r == s[..|r|]
    ensures AllWs(s[|r|..])
    ensures r == [] || !IsWs(r[|r| - 1])
  {
    if s != [] && IsWs(s[|s| - 1]) then TrimEnd(s[..|s| - 1]) else s
  }

  /** `r` is the piece of `s` from index i, and all of `s` around it is white space. */
  predicate TrimmedAt(s: string, r: string, i: int) {
    0 <= i <= |s| - |r| && r == s[i..i + |r|] && AllWs(s[..i]) && AllWs(s[i + |r|..])
  }

  /**
   * `String.prototype.trim`: the result is `s` with its leading and trailing
   * white space removed; it is empty exactly when `s` is all white space, and
   * otherwise begins and ends with a character that is not white space.
   */
  function Trim(s: string): (r: string)
    ensures |r| <= |s|
    ensures exists i :: TrimmedAt(s, r, i)
    ensures r == [] <==> AllWs(s)
    ensures r == [] || (!IsWs(r[0]) && !IsWs(r[|r| - 1]))
  {
    TrimEmptyIffWs(s);
    var r := TrimEnd(TrimStart(s));
    assert exists i :: TrimmedAt(s, r, i) by {
      var i := TrimIsInfix(s);
    }
    r
  }

  /** Trimming keeps the middle of `s`: what lies before and after it is white space. */
  lemma TrimIsInfix(s: string) returns (i: nat)
    ensures TrimmedAt(s, TrimEnd(TrimStart(s)), i)
  {
    var t := TrimStart(s);
    i := |s| - |t|;
    InfixOfSuffix(s, t, TrimEnd(t), i);
  }

  /** A prefix r of the suffix t == s[i..] sits at index i of s. */
  lemma InfixOfSuffix(s: string, t: string, r: string, i: nat)
    requires i <= |s| && t == s[i..] && AllWs(s[..i])
    requires |r| <= |t| && r == t[..|r|] && AllWs(t[|r|..])
    ensures TrimmedAt(s, r, i)
  {
    assert r == s[i..i + |r|];
    assert s[i + |r|..] == t[|r|..];
  }

  /** Both trimming steps together remove everything exactly when everything is white space. */
  lemma TrimEmptyIffWs(s: string)
    ensures var r := TrimEnd(TrimStart(s));
      && (r == [] <==> AllWs(s))
      && (r == [] || !IsWs(r[0]))
  {
    var t := TrimStart(s);
    var r := TrimEnd(t);
    var n := |s| - |t|;
    if r != [] {
      assert r[0] == t[0] == s[n];
    } else {
      assert t[|r|..] == t;
      assert AllWs(s[..n]) && AllWs(s[n..]);
      forall k | 0 <= k < |s| ensures IsWs(s[k]) {
        if k < n { assert s[k] == s[..n][k]; } else { assert s[k] == s[n..][k - n]; }
      }
    }
  }

  /** A string that already begins and ends with non-white-space is left as it is. */
  lemma TrimKeepsTrimmed(s: string)
    requires s == [] || (!IsWs(s[0]) && !IsWs(s[|s| - 1]))
    ensures Trim(s) == s
  {
    assert TrimStart(s) == s;
  }

  /** Trimming twice is trimming once. */
  lemma TrimIdempotent(s: string)
    ensures Trim(Trim(s)) == Trim(s)
  {
    TrimKeepsTrimmed(Trim(s));
  }

  /** `length` of a JavaScript string: code points above U+FFFF take two UTF-16 code units. */
  function Utf16Length(s: string): (n: nat)
    ensures |s| <= n <= 2 * |s|
  {
    if s == [] then 0 else (if s[0] as int > 0xFFFF then 2 else 1) + Utf16Length(s[1..])
  }

  /** One character is one code unit, or two (a surrogate pair) above U+FFFF. */
  lemma Utf16LengthChar(c: char)
    ensures Utf16Length([c]) == if c as int > 0xFFFF then 2 else 1
  {
    assert [c][1..] == [];
  }

  /** `length` of a concatenation is the sum of the lengths. */
  lemma {:induction false} Utf16LengthAppend(a: string, b: string)
    ensures Utf16Length(a + b) == Utf16Length(a) + Utf16Length(b)
  {
    if a == [] {
      assert a + b == b;
    } else {
      assert (a + b)[1..] == a[1..] + b;
      Utf16LengthAppend(a[1..], b);
    }
  }

  predicate InBmp(s: string) {
    forall k :: 0 <= k < |s| ==> s[k] as int <= 0xFFFF
  }

  /** Where every character lies in the Basic Multilingual Plane, `length` is the character count. */
  lemma {:induction false} Utf16LengthBmp(s: string)
    requires InBmp(s)
    ensures Utf16Length(s) == |s|
  {
    if s != [] {
      assert InBmp(s[1..]) by {
        forall k | 0 <= k < |s[1..]| ensures s[1..][k] as int <= 0xFFFF {
          assert s[1..][k] == s[k + 1];
        }
      }
      Utf16LengthBmp(s[1..]);
    }
  }
}
