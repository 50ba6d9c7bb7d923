/**
 * The e-mail syntax check `/^[^\s@]+@[^\s@]+\.[^\s@]+$/.test(email)`.
 *
 * `WellFormed` says what the pattern denotes: the string splits as
 * a + "@" + b + "." + c with a, b and c non-empty runs of characters that are
 * neither white space nor '@' (b and c may hold further dots). `Matches` is
 * what a matcher computes: a left-to-right run of the finite automaton for
 * the pattern. `MatchesIff` proves the two agree on every string.
 */
module Email {
  import opened Text

  /** A character of the class `[^\s@]`. */
  predicate PatternChar(c: char) {
    !IsWs(c) && c != '@'
  }

  /** Every character is in `[^\s@]` (the empty string included). */
  predicate Clean(x: string) {
    forall k :: 0 <= k < |x| ==> PatternChar(x[k])
  }

  /** A run matched by `[^\s@]+`. */
  predicate Segment(x: string) {
    |x| > 0 && Clean(x)
  }

  function Assemble(a: string, b: string, c: string): string {
    a + "@" + b + "." + c
  }

  /** The language of the pattern, stated structurally. */
  ghost predicate WellFormed(s: string) {
    exists a, b, c :: Segment(a) && Segment(b) && Segment(c) && s == Assemble(a, b, c)
  }

  /** The automaton's states, named after the part of the pattern reached. */
  datatype Phase =
    | Start    // nothing read
    | Local    // inside the local part, at least one character read
    | AtSign   // just read the '@'
    | Host     // at least one domain character, no usable '.' yet
    | HostDot  // the domain so far ends with a '.' that has a character before it
    | Tld      // a usable '.' followed by at least one character: accepting
    | Dead     // white space, or an '@' where none may stand

  function Step(ph: Phase, c: char): Phase {
    if ph == Dead || IsWs(c) then Dead
    else match ph
      case Start => if c == '@' then Dead else Local
      case Local => if c == '@' then AtSign else Local
      case AtSign => if c == '@' then Dead else Host
      case Host => if c == '@' then Dead else if c == '.' then HostDot else Host
      case HostDot => if c == '@' then Dead else Tld
      case Tld => if c == '@' then Dead else Tld
  }

  /** The phase after reading all of `s`. */
  function Scan(s: string): Phase
    decreases |s|
  {
    if s == [] then Start else Step(Scan(s[..|s| - 1]), s[|s| - 1])
  }

  /** `emailRegex.test(s)`. */
  predicate Matches(s: string) {
    Scan(s) == Tld
  }

  // ---- What each phase means about the text read so far ----

  /** `p` has its only '@' at index i, with text before it. */
  ghost predicate SplitAt(p: string, i: int) {
    0 < i < |p| && p[i] == '@' && Clean(p[..i]) && Clean(p[i + 1..])
  }

  /** Some '.' after the '@' at i has a domain character before it and one after it. */
  ghost predicate DotAfter(p: string, i: int) {
    exists k :: 0 <= i + 1 < k < |p| - 1 && p[k] == '.'
  }

  /** No '.' after the '@' at i at or beyond index i + 2 and below `upto`. */
  ghost predicate NoDotBetween(p: string, i: int, upto: int) {
    forall k :: 0 <= i + 1 < k < upto && k < |p| ==> p[k] != '.'
  }

  ghost predicate Broken(p: string) {
    || (exists k :: 0 <= k < |p| && IsWs(p[k]))
    || (|p| > 0 && p[0] == '@')
    || (exists j, k :: 0 <= j < k < |p| && p[j] == '@' && p[k] == '@')
  }

  ghost predicate Meaning(ph: Phase, p: string) {
    match ph
    case Start => p == []
    case Local => Segment(p)
    case AtSign => |p| >= 2 && SplitAt(p, |p| - 1)
    case Host => exists i :: SplitAt(p, i) && i + 1 < |p| && NoDotBetween(p, i, |p|)
    case HostDot => exists i :: SplitAt(p, i) && i + 2 < |p| && p[|p| - 1] == '.' && NoDotBetween(p, i, |p| - 1)
    case Tld => exists i :: SplitAt(p, i) && DotAfter(p, i)
    case Dead => Broken(p)
  }

  lemma CleanSnoc(x: string, c: char)
    requires Clean(x) && PatternChar(c)
    ensures Clean(x + [c])
  {
    forall k | 0 <= k < |x + [c]| ensures PatternChar((x + [c])[k]) {
      if k < |x| { assert (x + [c])[k] == x[k]; }
    }
  }

  /** Extending a string whose '@' sits at i by a pattern character keeps the '@' at i. */
  lemma SplitAtSnoc(p: string, i: int, c: char)
    requires SplitAt(p, i) && PatternChar(c)
    ensures SplitAt(p + [c], i)
  {
    var q := p + [c];
    assert q[..i] == p[..i];
    assert q[i + 1..] == p[i + 1..] + [c];
    CleanSnoc(p[i + 1..], c);
  }

  /** Two '@'s, or white space, can never be repaired by reading more. */
  lemma BrokenSnoc(p: string, c: char)
    requires Broken(p)
    ensures Broken(p + [c])
  {
    var q := p + [c];
    if exists k :: 0 <= k < |p| && IsWs(p[k]) {
      var k :| 0 <= k < |p| && IsWs(p[k]);
      assert q[k] == p[k];
    } else if |p| > 0 && p[0] == '@' {
      assert q[0] == p[0];
    } else {
      var j, k :| 0 <= j < k < |p| && p[j] == '@' && p[k] == '@';
      assert q[j] == p[j] && q[k] == p[k];
    }
  }

  /** Reading a second '@' after the one at i breaks the string. */
  lemma SecondAtBreaks(p: string, i: int)
    requires 0 <= i < |p| && p[i] == '@'
    ensures Broken(p + ['@'])
  {
    var q := p + ['@'];
    assert q[i] == '@' && q[|p|] == '@';
  }

  lemma StepHost(p: string, c: char)
    requires Meaning(Host, p) && PatternChar(c)
    ensures Meaning(Step(Host, c), p + [c])
  {
    var i :| SplitAt(p, i) && i + 1 < |p| && NoDotBetween(p, i, |p|);
    var q := p + [c];
    SplitAtSnoc(p, i, c);
    if c == '.' {
      assert q[|q| - 1] == '.';
      assert NoDotBetween(q, i, |q| - 1) by {
        forall k | i + 1 < k < |q| - 1 ensures q[k] != '.' { assert q[k] == p[k]; }
      }
    } else {
      assert NoDotBetween(q, i, |q|) by {
        forall k | i + 1 < k < |q| ensures q[k] != '.' {
          if k < |p| { assert q[k] == p[k]; }
        }
      }
    }
  }

  lemma StepHostDot(p: string, c: char)
    requires Meaning(HostDot, p) && PatternChar(c)
    ensures Meaning(Step(HostDot, c), p + [c])
  {
    var i :| SplitAt(p, i) && i + 2 < |p| && p[|p| - 1] == '.' && NoDotBetween(p, i, |p| - 1);
    var q := p + [c];
    SplitAtSnoc(p, i, c);
    assert q[|p| - 1] == '.';
    assert DotAfter(q, i);
  }

  lemma StepTld(p: string, c: char)
    requires Meaning(Tld, p) && PatternChar(c)
    ensures Meaning(Step(Tld, c), p + [c])
  {
    var i :| SplitAt(p, i) && DotAfter(p, i);
    var k :| 0 <= i + 1 < k < |p| - 1 && p[k] == '.';
    var q := p + [c];
    SplitAtSnoc(p, i, c);
    assert q[k] == '.';
  }

  lemma StepLocal(p: string, c: char)
    requires Meaning(Local, p) && !IsWs(c)
    ensures Meaning(Step(Local, c), p + [c])
  {
    var q := p + [c];
    if c == '@' {
      assert q[..|p|] == p;
      assert q[|p| + 1..] == [];
    } else {
      CleanSnoc(p, c);
    }
  }

  lemma StepAtSign(p: string, c: char)
    requires Meaning(AtSign, p) && PatternChar(c)
    ensures Meaning(Step(AtSign, c), p + [c])
  {
    var i := |p| - 1;
    var q := p + [c];
    SplitAtSnoc(p, i, c);
    assert NoDotBetween(q, i, |q|);
  }

  /** One step of the automaton keeps the meaning of its phase. */
  lemma StepMeaning(ph: Phase, p: string, c: char)
    requires Meaning(ph, p)
    ensures Meaning(Step(ph, c), p + [c])
  {
    var q := p + [c];
    if ph == Dead {
      BrokenSnoc(p, c);
    } else if IsWs(c) {
      assert q[|p|] == c;
    } else if c == '@' && ph != Local {
      match ph {
        case Start => assert q[0] == '@';
        case AtSign => SecondAtBreaks(p, |p| - 1);
        case Host =>
          var i :| SplitAt(p, i) && i + 1 < |p| && NoDotBetween(p, i, |p|);
          SecondAtBreaks(p, i);
        case HostDot =>
          var i :| SplitAt(p, i) && i + 2 < |p| && p[|p| - 1] == '.' && NoDotBetween(p, i, |p| - 1);
          SecondAtBreaks(p, i);
        case Tld =>
          var i :| SplitAt(p, i) && DotAfter(p, i);
          SecondAtBreaks(p, i);
      }
    } else {
      match ph {
        case Start => assert q == [c];
        case Local => StepLocal(p, c);
        case AtSign => StepAtSign(p, c);
        case Host => StepHost(p, c);
        case HostDot => StepHostDot(p, c);
        case Tld => StepTld(p, c);
      }
    }
  }

  /** The phase the automaton ends in describes the text it read. */
  lemma {:induction false} ScanMeaning(s: string)
    ensures Meaning(Scan(s), s)
    decreases |s|
  {
    if s != [] {
      var p := s[..|s| - 1];
      ScanMeaning(p);
      assert p + [s[|s| - 1]] == s;
      StepMeaning(Scan(p), p, s[|s| - 1]);
    }
  }

  /** In a string whose '@' at i is its only one, no other index holds an '@'. */
  lemma SplitAtUnique(p: string, i: int, j: int)
    requires SplitAt(p, i) && 0 <= j < |p| && p[j] == '@'
    ensures j == i
  {
  }

  /** A matched string is in no other phase's meaning. */
  lemma TldExclusive(ph: Phase, p: string)
    requires Meaning(Tld, p) && Meaning(ph, p)
    ensures ph == Tld
  {
    var i :| SplitAt(p, i) && DotAfter(p, i);
    var k :| 0 <= i + 1 < k < |p| - 1 && p[k] == '.';
    match ph {
      case Start =>
      case Local =>
      case AtSign => SplitAtUnique(p, i, |p| - 1);
      case Host =>
        var i' :| SplitAt(p, i') && i' + 1 < |p| && NoDotBetween(p, i', |p|);
        SplitAtUnique(p, i, i');
      case HostDot =>
        var i' :| SplitAt(p, i') && i' + 2 < |p| && p[|p| - 1] == '.' && NoDotBetween(p, i', |p| - 1);
        SplitAtUnique(p, i, i');
      case Tld =>
      case Dead =>
        if p[0] == '@' {
          SplitAtUnique(p, i, 0);
        } else {
          var j, m :| 0 <= j < m < |p| && p[j] == '@' && p[m] == '@';
          SplitAtUnique(p, i, j);
          SplitAtUnique(p, i, m);
        }
    }
  }

  /** A string of the shape a@b.c is in the accepting phase's meaning. */
  lemma WellFormedIsTld(a: string, b: string, c: string)
    requires Segment(a) && Segment(b) && Segment(c)
    ensures Meaning(Tld, Assemble(a, b, c))
  {
    var s := Assemble(a, b, c);
    var d := b + "." + c;
    var i := |a|;
    assert s[..i] == a;
    assert s[i + 1..] == d;
    forall m | 0 <= m < |d| ensures PatternChar(d[m]) {
      if m < |b| { assert d[m] == b[m]; }
      else if m > |b| { assert d[m] == c[m - |b| - 1]; }
    }
    assert s[|a| + 1 + |b|] == '.';
    assert SplitAt(s, i);
  }

  /** A string in the accepting phase's meaning has the shape a@b.c. */
  lemma TldIsWellFormed(s: string)
    requires Meaning(Tld, s)
    ensures WellFormed(s)
  {
    var i :| SplitAt(s, i) && DotAfter(s, i);
    var k :| 0 <= i + 1 < k < |s| - 1 && s[k] == '.';
    var a, b, c := s[..i], s[i + 1..k], s[k + 1..];
    var d := s[i + 1..];
    assert b == d[..k - i - 1] && c == d[k - i..];
    forall m | 0 <= m < |b| ensures PatternChar(b[m]) { assert b[m] == d[m]; }
    forall m | 0 <= m < |c| ensures PatternChar(c[m]) { assert c[m] == d[m + k - i]; }
    assert s == Assemble(a, b, c);
  }

  /** The structural language is the accepting phase's meaning. */
  lemma WellFormedIffTld(s: string)
    ensures WellFormed(s) <==> Meaning(Tld, s)
  {
    if WellFormed(s) {
      var a, b, c :| Segment(a) && Segment(b) && Segment(c) && s == Assemble(a, b, c);
      WellFormedIsTld(a, b, c);
    }
    if Meaning(Tld, s) {
      TldIsWellFormed(s);
    }
  }

  /**
   * The matcher accepts exactly the strings a@b.c with a, b, c non-empty and
   * free of white space and '@'.
   */
  lemma MatchesIff(s: string)
    ensures Matches(s) <==> WellFormed(s)
  {
    ScanMeaning(s);
    WellFormedIffTld(s);
    if Meaning(Tld, s) {
      TldExclusive(Scan(s), s);
    }
  }

  /** Strings with no '@', with two '@'s, or with white space are refused. */
  lemma RejectsMalformed(s: string)
    requires || '@' !in s
             || (exists j, k :: 0 <= j < k < |s| && s[j] == '@' && s[k] == '@')
             || (exists k :: 0 <= k < |s| && IsWs(s[k]))
    ensures !Matches(s)
  {
    MatchesIff(s);
    WellFormedIffTld(s);
    if Meaning(Tld, s) {
      var i :| SplitAt(s, i) && DotAfter(s, i);
      if exists j, k :: 0 <= j < k < |s| && s[j] == '@' && s[k] == '@' {
        var j, k :| 0 <= j < k < |s| && s[j] == '@' && s[k] == '@';
        SplitAtUnique(s, i, j);
        SplitAtUnique(s, i, k);
      } else if exists k :: 0 <= k < |s| && IsWs(s[k]) {
        var k :| 0 <= k < |s| && IsWs(s[k]);
        TldExclusive(Dead, s);
      }
    }
  }

  /** An '@' with no usable '.' after it (none, or only right after '@' or at the end) is refused. */
  lemma RejectsNoDotAfterAt(s: string, i: int)
    requires 0 <= i < |s| && s[i] == '@'
    requires forall k :: i + 1 < k < |s| - 1 ==> s[k] != '.'
    ensures !Matches(s)
  {
    MatchesIff(s);
    WellFormedIffTld(s);
    if Meaning(Tld, s) {
      var i' :| SplitAt(s, i') && DotAfter(s, i');
      SplitAtUnique(s, i', i);
    }
  }
}
