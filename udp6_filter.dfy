/**
 * The per-line rewrite CacheConfigsAsync applies to every file of the config
 * cache: a line mentioning the udp6 transport is dropped, every other line is
 * kept in its original order.
 */
module Udp6Filter {
  import opened Text

  const Udp6: string := "udp6"

  /** The test at Http.cs:101. */
  predicate Dropped(line: string)
  {
    Contains(line, Udp6)
  }

  /** The lines written back for a file whose lines were `lines`. */
  function Sanitize(lines: seq<string>): seq<string>
    decreases |lines|
  {
    if lines == [] then []
    else (if Dropped(lines[0]) then [] else [lines[0]]) + Sanitize(lines[1..])
  }

  /** `a` occurs in `b` in order, possibly with gaps. */
  predicate Subsequence<T(==)>(a: seq<T>, b: seq<T>)
    decreases |b|
  {
    a == [] || (|b| > 0 && ((a[0] == b[0] && Subsequence(a[1..], b[1..])) || Subsequence(a, b[1..])))
  }

  /** The filter works line by line: it distributes over concatenation. */
  lemma {:induction false} SanitizeConcat(a: seq<string>, b: seq<string>)
    ensures Sanitize(a + b) == Sanitize(a) + Sanitize(b)
    decreases |a|
  {
    if a != [] {
      assert (a + b)[1..] == a[1..] + b;
      SanitizeConcat(a[1..], b);
    } else {
      assert a + b == b;
    }
  }

  /** A line survives exactly when it was there and does not mention udp6. */
  lemma {:induction false} SanitizeMembers(lines: seq<string>, x: string)
    ensures x in Sanitize(lines) <==> x in lines && !Dropped(x)
    decreases |lines|
  {
    if lines != [] {
      SanitizeMembers(lines[1..], x);
      assert lines == [lines[0]] + lines[1..];
    }
  }

  /** After the rewrite no line mentions udp6. */
  lemma NoUdp6Left(lines: seq<string>)
    ensures forall i | 0 <= i < |Sanitize(lines)| :: !Contains(Sanitize(lines)[i], Udp6)
  {
  }

  /** Each kept line is kept as often as it occurred; each dropped line not at all. */
  lemma {:induction false} SanitizeCounts(lines: seq<string>, x: string)
    ensures multiset(Sanitize(lines))[x] == if Dropped(x) then 0 else multiset(lines)[x]
    decreases |lines|
  {
    if lines != [] {
      SanitizeCounts(lines[1..], x);
      assert lines == [lines[0]] + lines[1..];
    }
  }

  /** The kept lines appear in their original order. */
  lemma {:induction false} SanitizeInOrder(lines: seq<string>)
    ensures Subsequence(Sanitize(lines), lines)
    decreases |lines|
  {
    if lines != [] {
      SanitizeInOrder(lines[1..]);
      var rest := Sanitize(lines[1..]);
      if Dropped(lines[0]) {
        assert Sanitize(lines) == rest;
      } else {
        assert Sanitize(lines) == [lines[0]] + rest;
      }
    }
  }

  /** The filter leaves a file unchanged exactly when no line mentions udp6. */
  lemma {:induction false} SanitizeFixpoint(lines: seq<string>)
    ensures Sanitize(lines) == lines <==> forall i | 0 <= i < |lines| :: !Dropped(lines[i])
    decreases |lines|
  {
    if lines != [] {
      SanitizeFixpoint(lines[1..]);
      if Dropped(lines[0]) {
        SanitizeShorter(lines[1..]);
      } else {
        forall i | 1 <= i < |lines| ensures lines[i] == lines[1..][i - 1] { }
      }
    }
  }

  lemma {:induction false} SanitizeShorter(lines: seq<string>)
    ensures |Sanitize(lines)| <= |lines|
    decreases |lines|
  {
    if lines != [] {
      SanitizeShorter(lines[1..]);
    }
  }

  /** Rewriting an already rewritten file changes nothing. */
  lemma SanitizeIdempotent(lines: seq<string>)
    ensures Sanitize(Sanitize(lines)) == Sanitize(lines)
  {
    NoUdp6Left(lines);
    SanitizeFixpoint(Sanitize(lines));
  }

  /** The loop at Http.cs:97-103: build the kept lines with Add, one line at a time. */
  method DropUdp6Lines(lines: seq<string>) returns (newfile: seq<string>)
    ensures newfile == Sanitize(lines)
  {
    newfile := [];
    var i := 0;
    while i < |lines|
      invariant 0 <= i <= |lines|
      invariant newfile == Sanitize(lines[..i])
    {
      var line := lines[i];
      assert lines[..i + 1] == lines[..i] + [line];
      SanitizeConcat(lines[..i], [line]);
      if Contains(line, Udp6) {
        i := i + 1;
        continue;
      }
      newfile := newfile + [line];
      i := i + 1;
    }
    assert lines[..i] == lines;
  }
}
