/**
 The services page's accordion: N header/content pairs, at most one of them open.
 */
module Accordion {
  import opened Flags

  /** The header flags after a click on header k: all closed when k was open,
      otherwise header k alone. */
  function AfterClick(open: seq<bool>, k: nat): (r: seq<bool>)
    requires k < |open|
    ensures |r| == |open|
    ensures forall j :: 0 <= j < |open| ==> (r[j] <==> !open[k] && j == k)
  {
    if open[k] then AllOff(|open|) else Indicator(|open|, k)
  }

  /** A click leaves at most one item open, none exactly when the clicked one was open,
      and otherwise only the clicked one; the earlier state of the other items does not
      matter. */
  lemma ClickOutcome(open: seq<bool>, k: nat)
    requires k < |open|
    ensures CountTrue(AfterClick(open, k)) == if open[k] then 0 else 1
    ensures open[k] ==> forall j :: 0 <= j < |open| ==> !AfterClick(open, k)[j]
    ensures !open[k] ==> forall j :: 0 <= j < |open| ==> (AfterClick(open, k)[j] <==> j == k)
  {
    CountAllOff(|open|);
    CountIndicator(|open|, k);
  }

  /** Clicking header a and then another header b leaves only b open. */
  lemma ClickThenOther(open: seq<bool>, a: nat, b: nat)
    requires a < |open| && b < |open| && a != b
    ensures AfterClick(AfterClick(open, a), b) == Indicator(|open|, b)
  {
  }

  /** Clicking the same header twice, starting from closed, closes everything again. */
  lemma ClickTwiceCloses(open: seq<bool>, k: nat)
    requires k < |open| && !open[k]
    ensures AfterClick(AfterClick(open, k), k) == AllOff(|open|)
  {
  }

  class AccordionWidget {
    const headers: array<bool>
    const contents: array<bool>

    ghost predicate Valid()
      reads this
    {
      headers != contents && headers.Length == contents.Length
    }

    /** No more than one pair is open, and each header agrees with its content. */
    ghost predicate SingleOpen()
      reads this, headers, contents
      requires Valid()
    {
      headers[..] == contents[..] && CountTrue(headers[..]) <= 1
    }

    /** initializeAccordion: binds the handler to the page's pairs; the flags are
        whatever the markup set. */
    constructor (headers: array<bool>, contents: array<bool>)
      requires headers != contents && headers.Length == contents.Length
      ensures Valid()
      ensures this.headers == headers && this.contents == contents
    {
      this.headers := headers;
      this.contents := contents;
    }

    /** The click handler of header k: remember whether it was active, close every pair,
        then open pair k if it was not. */
    method Click(k: nat)
      requires Valid() && k < headers.Length
      modifies headers, contents
      ensures headers[..] == AfterClick(old(headers[..]), k)
      ensures contents[..] == headers[..]
      ensures SingleOpen()
    {
      ghost var before := headers[..];
      var isActive := headers[k];
      for i := 0 to headers.Length
        invariant forall j :: 0 <= j < i ==> !headers[j] && !contents[j]
        invariant forall j :: i <= j < headers.Length ==> headers[j] == before[j]
      {
        headers[i] := false;
        contents[i] := false;
      }
      if !isActive {
        headers[k] := true;
        contents[k] := true;
      }
      ClickOutcome(before, k);
    }
  }
}
