/**
 * `emitter/_helpers/_parse_scope.py`: a scope given as dotted text or as a
 * tuple becomes the tuple of its non-empty segments. Also the scope
 * normalisation `on`, `emit` and `limit_scope` do inline, which splits
 * without dropping empty segments.
 */
module ScopeParsing {
  import opened Python
  import opened Types
  import opened Seqs

  /** The two accepted forms of a scope argument. */
  datatype ScopeArg = Text(text: string) | Segments(segments: seq<string>)

  /** `filter(bool, xs)` on strings: the non-empty ones, in order. */
  function NonEmpty(xs: seq<string>): (r: seq<string>)
    ensures forall i :: 0 <= i < |r| ==> r[i] != []
    ensures forall x :: x in r <==> x in xs && x != []
  {
    if xs == [] then []
    else if xs[0] == [] then NonEmpty(xs[1..])
    else [xs[0]] + NonEmpty(xs[1..])
  }

  /** `parse_scope(scope)`. */
  function ParseScope(arg: ScopeArg): Scope {
    match arg
    case Text(s) => NonEmpty(Split(s))
    case Segments(t) => NonEmpty(t)
  }

  /** `tuple(scope.split(".")) if scope else EmptyScope`: the normalisation
      in `on`, `emit` and `limit_scope`. */
  function ScopeTuple(scope: string): Scope {
    if scope == [] then EmptyScope else Split(scope)
  }

  /** No parsed segment is empty, and a parsed text has no segment holding
      a dot. */
  lemma ParseScopeSegments(arg: ScopeArg)
    ensures forall i :: 0 <= i < |ParseScope(arg)| ==> ParseScope(arg)[i] != []
    ensures arg.Text? ==> forall i :: 0 <= i < |ParseScope(arg)| ==> '.' !in ParseScope(arg)[i]
  {
    if arg.Text? {
      forall i | 0 <= i < |ParseScope(arg)| ensures '.' !in ParseScope(arg)[i] {
        assert ParseScope(arg)[i] in Split(arg.text);
      }
    }
  }

  /** Dropping empty strings from a list without any changes nothing. */
  lemma {:induction false} NonEmptyFixed(xs: seq<string>)
    requires forall i :: 0 <= i < |xs| ==> xs[i] != []
    ensures NonEmpty(xs) == xs
  {
    if xs != [] {
      NonEmptyFixed(xs[1..]);
    }
  }

  /** Parsing is idempotent: a parsed scope, parsed again as a tuple, is
      unchanged. */
  lemma ParseIdempotent(arg: ScopeArg)
    ensures ParseScope(Segments(ParseScope(arg))) == ParseScope(arg)
  {
    NonEmptyFixed(ParseScope(arg));
  }

  /** Dropping empty strings keeps the others in their order. */
  lemma {:induction false} NonEmptySubsequence(xs: seq<string>)
    ensures Subsequence(NonEmpty(xs), xs)
  {
    if xs != [] {
      NonEmptySubsequence(xs[1..]);
      assert [xs[0]] + xs[1..] == xs;
      SubsequenceExtend(NonEmpty(xs[1..]), xs[1..], xs[0]);
      if xs[0] != [] {
        assert ([xs[0]] + NonEmpty(xs[1..]))[1..] == NonEmpty(xs[1..]);
      }
    }
  }

  /** A tuple keeps its non-empty elements, in order, and loses only the
      empty ones. */
  lemma ParseSegments(t: seq<string>)
    ensures Subsequence(ParseScope(Segments(t)), t)
    ensures forall x :: x in ParseScope(Segments(t)) <==> x in t && x != []
  {
    NonEmptySubsequence(t);
  }

  /** Dropping empty strings distributes over concatenation. */
  lemma {:induction false} NonEmptyAppend(a: seq<string>, b: seq<string>)
    ensures NonEmpty(a + b) == NonEmpty(a) + NonEmpty(b)
  {
    if a == [] {
      assert a + b == b;
    } else {
      assert (a + b)[1..] == a[1..] + b;
      NonEmptyAppend(a[1..], b);
    }
  }

  /** The empty text parses to the empty scope. */
  lemma ParseEmptyText()
    ensures ParseScope(Text("")) == EmptyScope
  {
    assert Split("") == [""];
  }

  /** Leading, trailing and doubled dots contribute nothing. */
  lemma ParseExtraDots(a: string, b: string)
    ensures ParseScope(Text("." + a)) == ParseScope(Text(a))
    ensures ParseScope(Text(a + ".")) == ParseScope(Text(a))
    ensures ParseScope(Text(a + ".." + b)) == ParseScope(Text(a + "." + b))
  {
    SplitDot("", a);
    assert "" + "." + a == "." + a;
    NonEmptyAppend(Split(""), Split(a));
    SplitDot(a, "");
    assert a + "." + "" == a + ".";
    NonEmptyAppend(Split(a), Split(""));
    SplitDot(a, "." + b);
    assert a + "." + ("." + b) == a + ".." + b;
    SplitDot("", b);
    assert "" + "." + b == "." + b;
    NonEmptyAppend(Split(a), Split("." + b));
    NonEmptyAppend(Split(""), Split(b));
    SplitDot(a, b);
    NonEmptyAppend(Split(a), Split(b));
  }

  /** Unlike parsing, the normalisation keeps empty segments: "a..b" is
      ("a", "", "b") there and ("a", "b") once parsed. */
  lemma NormalisationKeepsEmpty()
    ensures ScopeTuple("a..b") == ["a", "", "b"]
    ensures ParseScope(Text("a..b")) == ["a", "b"]
  {
    SplitJoin(["a", "", "b"]);
    assert Join(["a", "", "b"]) == "a..b";
  }

  /** The normalisation and parsing agree once empty segments are dropped. */
  lemma ParseOfTuple(scope: string)
    ensures NonEmpty(ScopeTuple(scope)) == ParseScope(Text(scope))
  {
    if scope == [] {
      ParseEmptyText();
    }
  }
}
