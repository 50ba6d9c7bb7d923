/**
 * The string transforms used to build the outgoing e-mail: the subject line
 * and the HTML rendering of the message body, `message.replace(/\n/g, "<br>")`.
 */
module Render {

  const SubjectPrefix: string := "Contact Form: "
  const LineBreak: string := "<br>"

  /** `Contact Form: ${subject}`: the prefix, then the subject exactly as submitted. */
  function SubjectLine(subject: string): (r: string)
    ensures |r| == |SubjectPrefix| + |subject|
    ensures r[..|SubjectPrefix|] == SubjectPrefix && r[|SubjectPrefix|..] == subject
  {
    SubjectPrefix + subject
  }

  /** Different subjects give different subject lines: nothing of the subject is lost. */
  lemma SubjectLineInjective(a: string, b: string)
    requires SubjectLine(a) == SubjectLine(b)
    ensures a == b
  {
    assert a == SubjectLine(a)[|SubjectPrefix|..];
  }

  predicate NoNewline(s: string) {
    forall k :: 0 <= k < |s| ==> s[k] != '\n'
  }

  /** The global replace: every '\n' becomes "<br>", every other character stays where it was. */
  function BreakLines(s: string): (r: string)
    ensures NoNewline(r)
  {
    if s == [] then []
    else
      var head := if s[0] == '\n' then LineBreak else [s[0]];
      var tail := BreakLines(s[1..]);
      head + tail
  }

  /** Rewriting distributes over concatenation. */
  lemma {:induction false} BreakLinesAppend(a: string, b: string)
    ensures BreakLines(a + b) == BreakLines(a) + BreakLines(b)
  {
    if a == [] {
      assert a + b == b;
    } else {
      assert (a + b)[1..] == a[1..] + b;
      BreakLinesAppend(a[1..], b);
    }
  }

  /** On text without newlines the rewrite changes nothing. */
  lemma {:induction false} BreakLinesNoNewline(s: string)
    requires NoNewline(s)
    ensures BreakLines(s) == s
  {
    if s != [] {
      assert NoNewline(s[1..]) by {
        forall k | 0 <= k < |s[1..]| ensures s[1..][k] != '\n' { assert s[1..][k] == s[k + 1]; }
      }
      BreakLinesNoNewline(s[1..]);
    }
  }

  /** Rewriting twice is rewriting once. */
  lemma BreakLinesIdempotent(s: string)
    ensures BreakLines(BreakLines(s)) == BreakLines(s)
  {
    BreakLinesNoNewline(BreakLines(s));
  }

  function NewlineCount(s: string): nat {
    if s == [] then 0 else (if s[0] == '\n' then 1 else 0) + NewlineCount(s[1..])
  }

  /** Each newline grows by three characters ("<br>" for '\n'); nothing else changes length. */
  lemma {:induction false} BreakLinesLength(s: string)
    ensures |BreakLines(s)| == |s| + 3 * NewlineCount(s)
  {
    if s != [] {
      BreakLinesLength(s[1..]);
    }
  }

  // ---- Reference definition: split on '\n', join with "<br>" ----

  /** `s.split("\n")`: the newline-free pieces between the newlines, in order. */
  function Lines(s: string): (ls: seq<string>)
    ensures |ls| == NewlineCount(s) + 1
    ensures forall j :: 0 <= j < |ls| ==> NoNewline(ls[j])
  {
    if s == [] then [[]]
    else
      var rest := Lines(s[1..]);
      if s[0] == '\n' then [[]] + rest
      else
        assert NoNewline([s[0]] + rest[0]) by {
          forall k | 0 <= k < |[s[0]] + rest[0]| ensures ([s[0]] + rest[0])[k] != '\n' {
            if k > 0 { assert ([s[0]] + rest[0])[k] == rest[0][k - 1]; }
          }
        }
        [[s[0]] + rest[0]] + rest[1..]
  }

  /** `ls.join(sep)`. */
  function Join(ls: seq<string>, sep: string): string
    requires |ls| > 0
  {
    if |ls| == 1 then ls[0] else ls[0] + sep + Join(ls[1..], sep)
  }

  lemma JoinConsHead(x: string, ls: seq<string>, sep: string)
    requires |ls| > 0
    ensures Join([x + ls[0]] + ls[1..], sep) == x + Join(ls, sep)
  {
    var ms := [x + ls[0]] + ls[1..];
    assert ms[1..] == ls[1..];
  }

  /** The rewrite is the same as `s.split("\n").join("<br>")`. */
  lemma {:induction false} BreakLinesIsSplitJoin(s: string)
    ensures BreakLines(s) == Join(Lines(s), LineBreak)
  {
    if s != [] {
      var rest := Lines(s[1..]);
      BreakLinesIsSplitJoin(s[1..]);
      if s[0] == '\n' {
        assert ([[]] + rest)[1..] == rest;
      } else {
        JoinConsHead([s[0]], rest, LineBreak);
      }
    }
  }

  /** Splitting on newlines and joining with a newline gives back the original text. */
  lemma {:induction false} SplitJoinRoundTrip(s: string)
    ensures Join(Lines(s), "\n") == s
  {
    if s != [] {
      var rest := Lines(s[1..]);
      SplitJoinRoundTrip(s[1..]);
      if s[0] == '\n' {
        assert ([[]] + rest)[1..] == rest;
        assert s == "\n" + s[1..];
      } else {
        JoinConsHead([s[0]], rest, "\n");
        assert s == [s[0]] + s[1..];
      }
    }
  }
}
