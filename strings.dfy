/** String helpers for the diagnostic messages: `Array.prototype.join`,
    `Array.prototype.reverse`, and a split on one separator character.
    The split is the inverse used to state that a rendered listing has
    exactly the lines it was built from. */
module Strings {

  /** `parts.join(sep)`: the parts in order with `sep` between neighbours. */
  function Join(parts: seq<string>, sep: string): string
  {
    if |parts| == 0 then ""
    else if |parts| == 1 then parts[0]
    else parts[0] + sep + Join(parts[1..], sep)
  }

  /** Joining one more part on the right adds one separator and that part. */
  lemma {:induction false} JoinSnoc(parts: seq<string>, x: string, sep: string)
    requires parts != []
    ensures Join(parts + [x], sep) == Join(parts, sep) + sep + x
  {
    if |parts| == 1 {
      assert parts + [x] == [parts[0], x];
      assert [parts[0], x][1..] == [x];
    } else {
      assert (parts + [x])[1..] == parts[1..] + [x];
      JoinSnoc(parts[1..], x, sep);
    }
  }

  /** The elements of `s` in the opposite order. */
  function Reverse<T>(s: seq<T>): (r: seq<T>)
    ensures |r| == |s|
    ensures forall i :: 0 <= i < |s| ==> r[i] == s[|s| - 1 - i]
  {
    if s == [] then [] else Reverse(s[1..]) + [s[0]]
  }

  /** Reversing a concatenation swaps and reverses the two halves. */
  lemma ReverseAppend<T>(a: seq<T>, b: seq<T>)
    ensures Reverse(a + b) == Reverse(b) + Reverse(a)
  {
  }

  /** Reversal is its own inverse. */
  lemma ReverseReverse<T>(s: seq<T>)
    ensures Reverse(Reverse(s)) == s
  {
  }

  /** No character of `s` is `c`. */
  predicate Free(s: string, c: char)
  {
    forall i :: 0 <= i < |s| ==> s[i] != c
  }

  /** A concatenation is free of `c` exactly when both halves are. */
  lemma FreeAppend(a: string, b: string, c: char)
    ensures Free(a + b, c) <==> Free(a, c) && Free(b, c)
  {
    if Free(a + b, c) {
      assert forall i :: 0 <= i < |a| ==> a[i] == (a + b)[i];
      assert forall i :: 0 <= i < |b| ==> b[i] == (a + b)[|a| + i];
    }
  }

  /** `s.split(c)`: the maximal runs between occurrences of `c`; a string
      holding `n` occurrences splits into `n + 1` pieces. */
  function Split(s: string, c: char): (r: seq<string>)
    ensures |r| > 0
  {
    if s == [] then [""]
    else if s[0] == c then [""] + Split(s[1..], c)
    else var rest := Split(s[1..], c); [[s[0]] + rest[0]] + rest[1..]
  }

  /** A string without the separator is a single piece. */
  lemma {:induction false} SplitFree(s: string, c: char)
    requires Free(s, c)
    ensures Split(s, c) == [s]
  {
    if s != [] {
      SplitFree(s[1..], c);
      assert [s[0]] + s[1..] == s;
    }
  }

  /** A separator-free head before the first separator is the first piece. */
  lemma {:induction false} SplitCons(x: string, c: char, y: string)
    requires Free(x, c)
    ensures Split(x + [c] + y, c) == [x] + Split(y, c)
  {
    if x == [] {
      assert x + [c] + y == [c] + y;
      assert ([c] + y)[1..] == y;
    } else {
      assert (x + [c] + y)[1..] == x[1..] + [c] + y;
      SplitCons(x[1..], c, y);
      assert [x[0]] + x[1..] == x;
    }
  }

  /** Splitting undoes joining when no part holds the separator. */
  lemma {:induction false} SplitJoin(parts: seq<string>, c: char)
    requires parts != []
    requires forall i :: 0 <= i < |parts| ==> Free(parts[i], c)
    ensures Split(Join(parts, [c]), c) == parts
  {
    if |parts| == 1 {
      SplitFree(parts[0], c);
    } else {
      SplitJoin(parts[1..], c);
      SplitCons(parts[0], c, Join(parts[1..], [c]));
      assert [parts[0]] + parts[1..] == parts;
    }
  }

  /** A leading separator adds one empty first piece. */
  lemma SplitLeadingJoin(parts: seq<string>, c: char)
    requires parts != []
    requires forall i :: 0 <= i < |parts| ==> Free(parts[i], c)
    ensures Split([c] + Join(parts, [c]), c) == [""] + parts
  {
    SplitJoin(parts, c);
    SplitCons("", c, Join(parts, [c]));
    assert "" + [c] + Join(parts, [c]) == [c] + Join(parts, [c]);
  }

  /** A leading separator, then a head and further lines joined by the
      separator, reads back as an empty piece, the head and the lines. */
  lemma SplitLeadingJoinHead(head: string, lines: seq<string>, c: char)
    requires Free(head, c)
    requires forall i :: 0 <= i < |lines| ==> Free(lines[i], c)
    ensures Split([c] + Join([head] + lines, [c]), c) == ["", head] + lines
  {
    var parts := [head] + lines;
    forall i | 0 <= i < |parts| ensures Free(parts[i], c) {
      if i > 0 { assert parts[i] == lines[i - 1]; }
    }
    SplitLeadingJoin(parts, c);
    assert [""] + parts == ["", head] + lines;
  }

  /** Each part followed by `c`, in order: `parts.map(p => p + c).join("")`. */
  function Terminated(parts: seq<string>, c: char): string
  {
    if parts == [] then "" else parts[0] + [c] + Terminated(parts[1..], c)
  }

  /** Terminating one more part on the right appends it and a separator. */
  lemma {:induction false} TerminatedSnoc(parts: seq<string>, x: string, c: char)
    ensures Terminated(parts + [x], c) == Terminated(parts, c) + x + [c]
  {
    if parts == [] {
      assert [x][1..] == [];
    } else {
      assert (parts + [x])[1..] == parts[1..] + [x];
      TerminatedSnoc(parts[1..], x, c);
    }
  }

  /** Splitting a terminated list gives the parts and one empty trailing piece. */
  lemma {:induction false} SplitTerminated(parts: seq<string>, c: char)
    requires forall i :: 0 <= i < |parts| ==> Free(parts[i], c)
    ensures Split(Terminated(parts, c), c) == parts + [""]
  {
    if parts != [] {
      SplitTerminated(parts[1..], c);
      SplitCons(parts[0], c, Terminated(parts[1..], c));
      assert [parts[0]] + parts[1..] == parts;
    }
  }
}
