/** The stack interface of assignment-2/stack.h, as the sequence of the
    elements from the bottom to the top, with the behaviour every stack of
    the repository shares: pop and topValue fail on an empty stack, and
    printing shows the elements from the bottom up between angle brackets,
    separated by ", ". */
module StackSpec {
  import opened Outcomes
  import Text

  /** pop: the top element and the stack below it. */
  function Pop<T>(s: seq<T>): (r: Result<(T, seq<T>)>)
    ensures r.Err? <==> s == []
    ensures r.Err? ==> r.failure == EmptyContainer
    ensures r.Ok? ==> r.value.1 + [r.value.0] == s
  {
    if s == [] then Err(EmptyContainer) else Ok((s[|s| - 1], s[..|s| - 1]))
  }

  /** topValue: the element pop would return, without removing it. */
  function Top<T>(s: seq<T>): (r: Result<T>)
    ensures r.Err? <==> s == []
    ensures r.Err? ==> r.failure == EmptyContainer
    ensures r.Ok? ==> Pop(s).Ok? && Pop(s).value.0 == r.value
  {
    if s == [] then Err(EmptyContainer) else Ok(s[|s| - 1])
  }

  /** pop undoes push. */
  lemma PushThenPop<T>(s: seq<T>, x: T)
    ensures Pop(s + [x]) == Ok((x, s))
    ensures Top(s + [x]) == Ok(x)
  {
    assert (s + [x])[..|s|] == s;
  }

  /** The elements of s from the last to the first. */
  function Reversed<T>(s: seq<T>): (r: seq<T>)
    ensures |r| == |s|
  {
    if s == [] then [] else [s[|s| - 1]] + Reversed(s[..|s| - 1])
  }

  lemma {:induction false} ReversedAt<T>(s: seq<T>, i: nat)
    requires i < |s|
    ensures Reversed(s)[i] == s[|s| - 1 - i]
    decreases |s|
  {
    if i > 0 {
      ReversedAt(s[..|s| - 1], i - 1);
    }
  }

  /** Reversing twice gives back the sequence. */
  lemma ReversedReversed<T>(s: seq<T>)
    ensures Reversed(Reversed(s)) == s
  {
    forall i | 0 <= i < |s| ensures Reversed(Reversed(s))[i] == s[i] {
      ReversedAt(Reversed(s), i);
      ReversedAt(s, |s| - 1 - i);
    }
  }

  /** `k` pops in a row: the elements in the order they come off, and the
      stack that is left; the first pop on an empty stack fails. */
  function PopMany<T>(s: seq<T>, k: nat): Result<(seq<T>, seq<T>)>
    decreases k
  {
    if k == 0 then Ok(([], s))
    else match Pop(s)
      case Err(f) => Err(f)
      case Ok((x, rest)) =>
        match PopMany(rest, k - 1)
        case Err(f) => Err(f)
        case Ok((xs, left)) => Ok(([x] + xs, left))
  }

  /** Last in, first out: pushing xs and then popping as many elements
      returns xs in reverse order and leaves the stack as it was. */
  lemma {:induction false} LastInFirstOut<T>(s: seq<T>, xs: seq<T>)
    ensures PopMany(s + xs, |xs|) == Ok((Reversed(xs), s))
    decreases |xs|
  {
    if xs != [] {
      var n := |xs| - 1;
      assert (s + xs)[..|s + xs| - 1] == s + xs[..n];
      assert Pop(s + xs) == Ok((xs[n], s + xs[..n]));
      LastInFirstOut(s, xs[..n]);
      assert PopMany(s + xs[..n], n) == Ok((Reversed(xs[..n]), s));
      assert PopMany(s + xs, n + 1) == Ok(([xs[n]] + Reversed(xs[..n]), s));
    } else {
      assert s + xs == s;
    }
  }

  /** The printed elements, bottom first. */
  function Shown<T>(s: seq<T>, show: T -> string): (r: seq<string>)
    ensures |r| == |s| && forall i :: 0 <= i < |s| ==> r[i] == show(s[i])
  {
    seq(|s|, i requires 0 <= i < |s| => show(s[i]))
  }

  /** What operator<< writes for a stack holding s. */
  function Render<T>(s: seq<T>, show: T -> string): string
  {
    "<" + Text.Join(Shown(s, show), ", ") + ">"
  }

  /** A two-digit number prints as its two digits. */
  lemma TwoDigitsShown(n: int)
    requires 10 <= n < 100
    ensures Text.IntToString(n) == [Text.DigitChar(n / 10), Text.DigitChar(n % 10)]
  {
    assert Text.NatToString(n / 10) == [Text.DigitChar(n / 10)];
  }

  /** The renderings assignment-2/tests.cpp:26, :33 and :42 expect. */
  lemma RenderScenarios()
    ensures Render([], Text.IntToString) == "<>"
    ensures Render([20, 23, 12], Text.IntToString) == "<20, 23, 12>"
  {
    TwoDigitsShown(20);
    TwoDigitsShown(23);
    TwoDigitsShown(12);
    var parts := Shown([20, 23, 12], Text.IntToString);
    assert parts == ["20", "23", "12"];
    assert Text.Join(["12"], ", ") == "12";
    assert Text.Join(["23", "12"], ", ") == "23, 12" by {
      assert ["23", "12"][1..] == ["12"];
    }
    assert Text.Join(parts, ", ") == "20, 23, 12" by {
      assert parts[1..] == ["23", "12"];
    }
  }

  // -----------------------------------------------------------------------
  // The printing loops of operator<<: the stack is drained into a temporary
  // stack, then the temporary is popped, each element printed and pushed
  // back.  Throughout, the stack followed by the reversed temporary is the
  // original stack.

  /** Moving the top of `s` onto `t` keeps s + Reversed(t). */
  lemma MovedTop<T>(s: seq<T>, t: seq<T>, x: T)
    ensures s + [x] + Reversed(t) == s + Reversed(t + [x])
  {
    assert (t + [x])[..|t|] == t;
  }

  /** The text written after the first i elements of `orig` were printed
      behind `pre`, with the separator that follows them when more remain. */
  function Printing<T>(pre: string, orig: seq<T>, i: nat, show: T -> string, sep: string): string
    requires i <= |orig|
  {
    pre + Text.Join(Shown(orig[..i], show), sep) + (if 0 < i < |orig| then sep else "")
  }

  /** Printing one more element: the element, then a separator unless it was
      the last one. */
  lemma PrintingStep<T>(pre: string, orig: seq<T>, i: nat, show: T -> string, sep: string)
    requires i < |orig|
    ensures Printing(pre, orig, i + 1, show, sep) == Printing(pre, orig, i, show, sep) + show(orig[i]) + (if i + 1 < |orig| then sep else "")
  {
    var parts := Shown(orig, show);
    assert Shown(orig[..i + 1], show) == parts[..i + 1];
    assert Shown(orig[..i], show) == parts[..i];
    Text.JoinPrefixStep(parts, i, sep);
  }

  /** Once every element is printed, the text is all of them joined. */
  lemma PrintingDone<T>(pre: string, orig: seq<T>, show: T -> string, sep: string)
    ensures Printing(pre, orig, |orig|, show, sep) == pre + Text.Join(Shown(orig, show), sep)
  {
    assert orig[..|orig|] == orig;
  }

  /** operator<< closes the printed elements with ">": the text is the
      rendering of the stack. */
  lemma PrintingRendered<T>(os: string, orig: seq<T>, show: T -> string)
    ensures Printing(os + "<", orig, |orig|, show, ", ") + ">" == os + Render(orig, show)
  {
    PrintingDone(os + "<", orig, show, ", ");
  }

  /** One round of the refilling loop of operator<<: with `below` on the
      stack and rest + [x] on the temporary, x is the next element of
      `orig` to print and to push back. */
  lemma RefillPrinted<T>(pre: string, orig: seq<T>, below: seq<T>, rest: seq<T>, x: T, show: T -> string, sep: string)
    requires orig == below + Reversed(rest + [x])
    ensures |below| < |orig| && orig == below + [x] + Reversed(rest)
    ensures Printing(pre, orig, |below| + 1, show, sep) == Printing(pre, orig, |below|, show, sep) + show(x) + (if rest != [] then sep else "")
  {
    MovedTop(below, rest, x);
    PrintingStep(pre, orig, |below|, show, sep);
  }
}
