/** The worker's grouping key for error events (apps/worker/src/fingerprint.ts).

    `computeFingerprint(exceptionType, stacktrace)` keeps the top frame of the
    stack trace (what `stacktrace.split("\n")[0]` yields), builds the text
    `exceptionType + ":" + topFrame` and returns its SHA-256 digest in hex.
    The digest is supplied by the caller as `hash`: any function of the key. */
module Fingerprint {

  const Newline: char := '\n'
  const Separator: char := ':'

  /** JavaScript's `s.split(sep)` for a one-character separator: the pieces
      between separators, in order, always at least one (`"".split(sep)` is
      `[""]`). The first piece is the longest separator-free prefix. */
  function Split(s: string, sep: char): (parts: seq<string>)
    ensures |parts| >= 1
    ensures parts[0] <= s && sep !in parts[0]
    ensures |parts[0]| == |s| || s[|parts[0]|] == sep
    decreases |s|
  {
    if s == [] then [[]]
    else
      var rest := Split(s[1..], sep);
      if s[0] == sep then [[]] + rest
      else [[s[0]] + rest[0]] + rest[1..]
  }

  /** Array.prototype.join: the pieces with `sep` between neighbours. */
  function Join(parts: seq<string>, sep: char): (text: string)
  {
    if parts == [] then []
    else if |parts| == 1 then parts[0]
    else parts[0] + [sep] + Join(parts[1..], sep)
  }

  /** No piece produced by Split contains the separator. */
  lemma {:induction false} SplitPiecesFree(s: string, sep: char)
    ensures forall i :: 0 <= i < |Split(s, sep)| ==> sep !in Split(s, sep)[i]
    decreases |s|
  {
    if s != [] {
      SplitPiecesFree(s[1..], sep);
      var rest := Split(s[1..], sep);
      if s[0] != sep {
        assert sep !in [s[0]] + rest[0];
      }
    }
  }

  /** Joining the pieces with the separator gives back the original text. */
  lemma {:induction false} JoinSplit(s: string, sep: char)
    ensures Join(Split(s, sep), sep) == s
    decreases |s|
  {
    if s != [] {
      JoinSplit(s[1..], sep);
      var rest := Split(s[1..], sep);
      if s[0] == sep {
        assert Split(s, sep)[1..] == rest;
        assert s == [sep] + s[1..];
      } else {
        var parts := Split(s, sep);
        assert parts[1..] == rest[1..];
        if |rest| == 1 {
          assert Join(parts, sep) == [s[0]] + rest[0];
        } else {
          assert Join(rest, sep) == rest[0] + [sep] + Join(rest[1..], sep);
          assert Join(parts, sep) == [s[0]] + rest[0] + [sep] + Join(rest[1..], sep);
        }
        assert s == [s[0]] + s[1..];
      }
    }
  }

  /** Splitting text that starts with a separator-free prefix `p` glues `p`
      onto the first piece of the remainder. */
  lemma {:induction false} SplitAfterPrefix(p: string, u: string, sep: char)
    requires sep !in p
    ensures Split(p + u, sep) == [p + Split(u, sep)[0]] + Split(u, sep)[1..]
    decreases |p|
  {
    var parts := Split(u, sep);
    if p == [] {
      assert p + u == u && p + parts[0] == parts[0];
      assert parts == [parts[0]] + parts[1..];
    } else {
      var s := p + u;
      assert s[0] == p[0] && s[0] != sep;
      assert s[1..] == p[1..] + u;
      SplitAfterPrefix(p[1..], u, sep);
      var rest := Split(s[1..], sep);
      assert rest == [p[1..] + parts[0]] + parts[1..];
      assert Split(s, sep) == [[s[0]] + rest[0]] + rest[1..];
      assert [p[0]] + (p[1..] + parts[0]) == p + parts[0];
    }
  }

  /** Splitting undoes joining, for separator-free pieces: the two functions
      are inverse on a non-empty list of pieces. */
  lemma {:induction false} SplitJoin(parts: seq<string>, sep: char)
    requires |parts| >= 1
    requires forall i :: 0 <= i < |parts| ==> sep !in parts[i]
    ensures Split(Join(parts, sep), sep) == parts
    decreases |parts|
  {
    if |parts| == 1 {
      SplitAfterPrefix(parts[0], [], sep);
      assert parts[0] + [] == parts[0];
    } else {
      var tail := Join(parts[1..], sep);
      SplitJoin(parts[1..], sep);
      assert Join(parts, sep) == parts[0] + ([sep] + tail);
      SplitAfterPrefix(parts[0], [sep] + tail, sep);
      assert ([sep] + tail)[1..] == tail;
      assert Split([sep] + tail, sep) == [[]] + parts[1..];
      assert parts[0] + [] == parts[0];
      assert parts == [parts[0]] + parts[1..];
    }
  }

  /** `stacktrace.split("\n")[0] ?? ""`: the first line of the stack trace.
      Split never yields an empty list, so the `""` fallback is not reached. */
  function TopFrame(stacktrace: string): (top: string)
    ensures top <= stacktrace && Newline !in top
    ensures |top| == |stacktrace| || stacktrace[|top|] == Newline
  {
    var parts := Split(stacktrace, Newline);
    if |parts| > 0 then parts[0] else ""
  }

  /** The three facts TopFrame ensures pin down its result: any newline-free
      prefix that ends at a newline or at the end of the text is the top frame. */
  lemma TopFrameUnique(stacktrace: string, line: string)
    requires line <= stacktrace && Newline !in line
    requires |line| == |stacktrace| || stacktrace[|line|] == Newline
    ensures line == TopFrame(stacktrace)
  {
  }

  /** Everything after the first newline is dropped. */
  lemma TopFrameOfLines(first: string, rest: string)
    requires Newline !in first
    ensures TopFrame(first + [Newline] + rest) == first
  {
    var s := first + [Newline] + rest;
    assert s[|first|] == Newline;
    TopFrameUnique(s, first);
  }

  /** A stack trace without a newline is its own top frame; in particular the
      empty stack trace gives the empty top frame. */
  lemma TopFrameOfSingleLine(stacktrace: string)
    requires Newline !in stacktrace
    ensures TopFrame(stacktrace) == stacktrace
  {
  }

  /** The top frame of a text whose first line `p` is newline-free continues
      into the top frame of what follows. */
  lemma TopFrameAfterPrefix(p: string, u: string)
    requires Newline !in p
    ensures TopFrame(p + u) == p + TopFrame(u)
  {
    var top := TopFrame(u);
    var s := p + u;
    assert p + top <= s;
    if |top| < |u| {
      assert s[|p + top|] == u[|top|];
    }
    TopFrameUnique(s, p + top);
  }

  /** The text handed to the hash, `${exceptionType}:${topFrame}`: the
      exception type, a colon, and a newline-free prefix of the stack trace
      that reaches the first newline or the end of the stack trace. */
  function HashInput(exceptionType: string, stacktrace: string): (key: string)
    ensures |key| > |exceptionType|
    ensures key[..|exceptionType|] == exceptionType && key[|exceptionType|] == Separator
    ensures var top := key[|exceptionType| + 1..];
      && top <= stacktrace && Newline !in top
      && (|top| == |stacktrace| || stacktrace[|top|] == Newline)
  {
    var key := exceptionType + [Separator] + TopFrame(stacktrace);
    assert key[|exceptionType| + 1..] == TopFrame(stacktrace);
    key
  }

  /** computeFingerprint: the hash of the key. Cutting the stack trace down
      to its top frame first gives the same fingerprint. */
  function ComputeFingerprint(hash: string -> string, exceptionType: string, stacktrace: string): (digest: string)
    ensures digest == hash(HashInput(exceptionType, TopFrame(stacktrace)))
  {
    TopFrameOfSingleLine(TopFrame(stacktrace));
    hash(HashInput(exceptionType, stacktrace))
  }

  /** An empty stack trace yields the key `exceptionType + ":"`. */
  lemma EmptyStacktraceKey(exceptionType: string)
    ensures HashInput(exceptionType, "") == exceptionType + [Separator]
  {
  }

  /** Only the first line of the stack trace matters: two stack traces that
      agree up to and including their first newline, or that have the same
      first line, give the same fingerprint whatever follows. */
  lemma FingerprintIgnoresLaterLines(hash: string -> string, exceptionType: string,
                                     first: string, rest1: string, rest2: string)
    requires Newline !in first
    ensures ComputeFingerprint(hash, exceptionType, first + [Newline] + rest1)
         == ComputeFingerprint(hash, exceptionType, first + [Newline] + rest2)
         == ComputeFingerprint(hash, exceptionType, first)
  {
    TopFrameOfLines(first, rest1);
    TopFrameOfLines(first, rest2);
    TopFrameOfSingleLine(first);
  }

  /** The fingerprint is a function of the key alone: equal keys, equal digests,
      whichever exception types and stack traces produced them. */
  lemma FingerprintDependsOnKeyOnly(hash: string -> string, type1: string, trace1: string,
                                    type2: string, trace2: string)
    requires type1 + [Separator] + TopFrame(trace1) == type2 + [Separator] + TopFrame(trace2)
    ensures ComputeFingerprint(hash, type1, trace1) == ComputeFingerprint(hash, type2, trace2)
  {
  }

  /** When neither exception type contains a colon, equal keys come only from
      equal exception types and equal top frames. */
  lemma KeyInjective(type1: string, frame1: string, type2: string, frame2: string)
    requires Separator !in type1 && Separator !in type2
    requires type1 + [Separator] + frame1 == type2 + [Separator] + frame2
    ensures type1 == type2 && frame1 == frame2
  {
    var key := type1 + [Separator] + frame1;
    assert key[|type1|] == Separator && key[|type2|] == Separator;
    assert forall i :: 0 <= i < |type1| ==> key[i] == type1[i];
    assert forall i :: 0 <= i < |type2| ==> key[i] == type2[i];
    assert type1 == key[..|type1|] == type2;
    assert frame1 == key[|type1| + 1..] == frame2;
  }

  /** With a hash that separates the two keys (no collision), the fingerprints
      of colon-free exception types differ whenever the exception types or the
      top frames differ. */
  lemma FingerprintSeparates(hash: string -> string, type1: string, trace1: string,
                             type2: string, trace2: string)
    requires Separator !in type1 && Separator !in type2
    requires hash(HashInput(type1, trace1)) == hash(HashInput(type2, trace2))
         ==> HashInput(type1, trace1) == HashInput(type2, trace2)
    requires type1 != type2 || TopFrame(trace1) != TopFrame(trace2)
    ensures ComputeFingerprint(hash, type1, trace1) != ComputeFingerprint(hash, type2, trace2)
  {
    if ComputeFingerprint(hash, type1, trace1) == ComputeFingerprint(hash, type2, trace2) {
      KeyInjective(type1, TopFrame(trace1), type2, TopFrame(trace2));
    }
  }

  /** A colon inside the exception type makes different events share a key:
      the type `a:b` with trace `s` and the type `a` with trace `b:s` both give
      `a:b:` followed by the top frame of `s`, for every hash. */
  lemma ColonInTypeCollides(hash: string -> string, a: string, b: string, stacktrace: string)
    requires Newline !in b
    ensures a + [Separator] + b != a
    ensures ComputeFingerprint(hash, a + [Separator] + b, stacktrace)
         == ComputeFingerprint(hash, a, b + [Separator] + stacktrace)
  {
    assert |a + [Separator] + b| > |a|;
    var top := TopFrame(stacktrace);
    assert Newline !in b + [Separator];
    TopFrameAfterPrefix(b + [Separator], stacktrace);
    assert TopFrame(b + [Separator] + stacktrace) == b + [Separator] + top;
    assert a + [Separator] + (b + [Separator] + top) == a + [Separator] + b + [Separator] + top;
  }

  /** The concrete collision: ("a:b", "c") and ("a", "b:c") share the key "a:b:c". */
  lemma ColonCollisionExample(hash: string -> string)
    ensures HashInput("a:b", "c") == HashInput("a", "b:c") == "a:b:c"
    ensures ComputeFingerprint(hash, "a:b", "c") == ComputeFingerprint(hash, "a", "b:c")
  {
  }
}
