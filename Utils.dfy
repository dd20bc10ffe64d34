/**
 * `list_options` (src/utils.rs): a numbered list of options between two rules, built
 * up line by line in a mutable string.
 */
module Utils {
  import opened Strings

  const RULE := "------------------------"
  const HEADING := "Available options:"

  /** The line for the option at 0-based position `k`, without its newline: numbering starts at 1. */
  function NumberedLine(k: nat, option: string): string
  {
    NatToString(k + 1) + " - " + option
  }

  /** The numbered lines of `options`, in order, each ended by a newline. */
  function OptionLines(options: seq<string>): string
    decreases |options|
  {
    if |options| == 0 then ""
    else
      var n := |options| - 1;
      OptionLines(options[..n]) + NumberedLine(n, options[n]) + "\n"
  }

  /** The text `list_options` returns for `options`. */
  function OptionsListing(options: seq<string>): (s: string)
    ensures |s| >= 2 * |RULE| + |HEADING| + 2
    ensures s[..|RULE| + |HEADING| + 2] == RULE + "\n" + HEADING + "\n"
    ensures s[|s| - |RULE|..] == RULE && s[|s| - 1] != '\n'
  {
    RULE + "\n" + HEADING + "\n" + OptionLines(options) + RULE
  }

  /** Builds the listing as the source does: header, one pushed line per option, footer. */
  method ListOptions(opts: seq<string>) returns (output: string)
    ensures output == OptionsListing(opts)
  {
    output := "";
    output := output + RULE + "\n";
    output := output + HEADING + "\n";
    for index := 0 to |opts|
      invariant output == RULE + "\n" + HEADING + "\n" + OptionLines(opts[..index])
    {
      assert opts[..index + 1][..index] == opts[..index];
      output := output + NatToString(index + 1) + " - " + opts[index] + "\n";
    }
    assert opts[..|opts|] == opts;
    output := output + RULE;
  }

  // ------------------------------------------------------------ reading the listing back

  /** Lines each followed by a newline. */
  function Terminated(lines: seq<string>): string
  {
    if |lines| == 0 then "" else lines[0] + "\n" + Terminated(lines[1..])
  }

  function NumberedLines(options: seq<string>): (lines: seq<string>)
    ensures |lines| == |options|
  {
    seq(|options|, k requires 0 <= k < |options| => NumberedLine(k, options[k]))
  }

  lemma {:induction false} TerminatedSnoc(lines: seq<string>, x: string)
    ensures Terminated(lines + [x]) == Terminated(lines) + x + "\n"
  {
    if |lines| > 0 {
      assert (lines + [x])[1..] == lines[1..] + [x];
      TerminatedSnoc(lines[1..], x);
    }
  }

  lemma {:induction false} TerminatedJoin(lines: seq<string>, last: string)
    ensures Terminated(lines) + last == Join(lines + [last], '\n')
  {
    if |lines| > 0 {
      assert (lines + [last])[1..] == lines[1..] + [last];
      TerminatedJoin(lines[1..], last);
    }
  }

  lemma {:induction false} OptionLinesTerminated(options: seq<string>)
    ensures OptionLines(options) == Terminated(NumberedLines(options))
    decreases |options|
  {
    if |options| > 0 {
      var n := |options| - 1;
      OptionLinesTerminated(options[..n]);
      assert NumberedLines(options) == NumberedLines(options[..n]) + [NumberedLine(n, options[n])];
      TerminatedSnoc(NumberedLines(options[..n]), NumberedLine(n, options[n]));
    }
  }

  /** The lines of the listing: the rule, the heading, the numbered options, the rule again. */
  function ListingParts(options: seq<string>): seq<string>
  {
    [RULE, HEADING] + NumberedLines(options) + [RULE]
  }

  lemma ListingIsJoin(options: seq<string>)
    ensures OptionsListing(options) == Join(ListingParts(options), '\n')
  {
    var body := NumberedLines(options);
    var all := [RULE, HEADING] + body;
    var t := Terminated(body);
    OptionLinesTerminated(options);
    assert Terminated([HEADING] + body) == HEADING + "\n" + t by {
      assert ([HEADING] + body)[1..] == body;
    }
    assert Terminated(all) == RULE + "\n" + Terminated([HEADING] + body) by {
      assert all[1..] == [HEADING] + body;
    }
    assert all + [RULE] == ListingParts(options);
    TerminatedJoin(all, RULE);
    assert RULE + "\n" + (HEADING + "\n" + t) + RULE == RULE + "\n" + HEADING + "\n" + t + RULE;
  }

  lemma ListingPartsHaveNoNewline(options: seq<string>)
    requires forall k :: 0 <= k < |options| ==> '\n' !in options[k]
    ensures forall k :: 0 <= k < |ListingParts(options)| ==> '\n' !in ListingParts(options)[k]
  {
    var parts := ListingParts(options);
    forall k | 0 <= k < |parts| ensures '\n' !in parts[k] {
      if 2 <= k < |options| + 2 {
        var digits := NatToString(k - 1);
        assert parts[k] == digits + " - " + options[k - 2];
        NatToStringOnlyDigits(k - 1, '\n');
      }
    }
  }

  /**
   * Read line by line, the listing is the rule, the heading, one line `<k+1> - <option>`
   * per option in input order, and the rule again, when no option holds a newline.
   */
  lemma ListingLines(options: seq<string>)
    requires forall k :: 0 <= k < |options| ==> '\n' !in options[k]
    ensures var lines := Split(OptionsListing(options), '\n');
      && |lines| == |options| + 3
      && lines[0] == RULE && lines[1] == HEADING && lines[|options| + 2] == RULE
      && forall k :: 0 <= k < |options| ==> lines[k + 2] == NatToString(k + 1) + " - " + options[k]
  {
    ListingIsJoin(options);
    ListingPartsHaveNoNewline(options);
    SplitJoin(ListingParts(options), '\n');
    var parts := ListingParts(options);
    assert forall k :: 0 <= k < |options| ==> parts[k + 2] == NumberedLines(options)[k];
  }
}
