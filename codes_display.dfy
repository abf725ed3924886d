/**
 * The display string of an itinerary: every code as a link to its airnav.com
 * page, the links separated by an arrow
 * (inc/airport-functions.php, the codes_display part of rdcoll_get_flight_data).
 *
 * The source appends link + arrow for every code and then strips the trailing
 * arrow with PHP's rtrim, whose second argument is a SET of characters, not a
 * suffix. The lemmas here show that this strips exactly the last arrow.
 */
module CodesDisplay {

  /** The separator appended after every link. */
  const Arrow: string := " &rarr; "

  /** The characters rtrim strips when given Arrow as its character mask. */
  const ArrowMask: set<char> := {' ', '&', 'r', 'a', ';'}

  /** The mask rtrim reads from Arrow holds exactly Arrow's characters. */
  lemma ArrowMaskIsArrowCharacters()
    ensures forall c :: c in ArrowMask <==> c in Arrow
  {
  }

  /** The link for one airport code. */
  function Link(code: string): (l: string)
    ensures |l| > 0 && l[|l| - 1] == '>'
  {
    "<a href=\"http://www.airnav.com/airport/" + code + "\" target=\"_blank\">" + code + "</a>"
  }

  /** The links for `codes`, in order. */
  function Links(codes: seq<string>): (ls: seq<string>)
    ensures |ls| == |codes|
    ensures forall i :: 0 <= i < |codes| ==> ls[i] == Link(codes[i])
  {
    seq(|codes|, i requires 0 <= i < |codes| => Link(codes[i]))
  }

  /**
   * PHP's rtrim with a character mask: drop characters from the end of `s`
   * while they belong to `mask`.
   */
  function RTrim(s: string, mask: set<char>): (r: string)
    ensures r <= s
    ensures r == [] || r[|r| - 1] !in mask
    ensures forall i :: |r| <= i < |s| ==> s[i] in mask
    decreases |s|
  {
    if s != [] && s[|s| - 1] in mask then RTrim(s[..|s| - 1], mask) else s
  }

  /** Every part followed by `sep`: what the source's loop of `.=` builds. */
  function Terminated(parts: seq<string>, sep: string): string
    decreases |parts|
  {
    if parts == [] then "" else Terminated(parts[..|parts| - 1], sep) + parts[|parts| - 1] + sep
  }

  /** The parts with `sep` between consecutive parts and nowhere else. */
  function Join(parts: seq<string>, sep: string): string
    decreases |parts|
  {
    if parts == [] then ""
    else if |parts| == 1 then parts[0]
    else Join(parts[..|parts| - 1], sep) + sep + parts[|parts| - 1]
  }

  /** Following every part with the separator is joining them and adding one separator at the end. */
  lemma {:induction false} TerminatedIsJoinThenSep(parts: seq<string>, sep: string)
    requires parts != []
    ensures Terminated(parts, sep) == Join(parts, sep) + sep
    decreases |parts|
  {
    var n := |parts|;
    if n > 1 {
      var init := parts[..n - 1];
      TerminatedIsJoinThenSep(init, sep);
      calc {
        Terminated(parts, sep);
        Terminated(init, sep) + parts[n - 1] + sep;
        Join(init, sep) + sep + parts[n - 1] + sep;
        Join(parts, sep) + sep;
      }
    } else {
      assert parts[..0] == [];
    }
  }

  /** rtrim removes a tail made only of mask characters, and stops at a character outside the mask. */
  lemma {:induction false} RTrimStopsAtUnmasked(s: string, tail: string, mask: set<char>)
    requires s != [] && s[|s| - 1] !in mask
    requires forall i :: 0 <= i < |tail| ==> tail[i] in mask
    ensures RTrim(s + tail, mask) == s
    decreases |tail|
  {
    if tail != [] {
      var init := tail[..|tail| - 1];
      assert (s + tail)[..|s + tail| - 1] == s + init;
      RTrimStopsAtUnmasked(s, init, mask);
    } else {
      assert s + tail == s;
    }
  }

  /**
   * Stripping the mask characters off the end of the separated parts removes
   * exactly the last separator, provided the separator is made of mask
   * characters and the last part ends in a character outside the mask.
   */
  lemma RTrimTerminatedIsJoin(parts: seq<string>, sep: string, mask: set<char>)
    requires parts != []
    requires forall i :: 0 <= i < |sep| ==> sep[i] in mask
    requires Join(parts, sep) != [] && Join(parts, sep)[|Join(parts, sep)| - 1] !in mask
    ensures RTrim(Terminated(parts, sep), mask) == Join(parts, sep)
  {
    TerminatedIsJoinThenSep(parts, sep);
    RTrimStopsAtUnmasked(Join(parts, sep), sep, mask);
  }

  /** The display of `codes`: the links joined by arrows, with no trailing arrow. */
  function Display(codes: seq<string>): string
  {
    Join(Links(codes), Arrow)
  }

  /**
   * The source's way of building the display, appending link + arrow and
   * rtrimming with the arrow as mask, gives the links joined by arrows.
   */
  lemma {:induction false} RTrimOfLinksIsDisplay(codes: seq<string>)
    requires codes != []
    ensures RTrim(Terminated(Links(codes), Arrow), ArrowMask) == Display(codes)
    ensures Display(codes)[|Display(codes)| - 1] == '>'
  {
    var links := Links(codes);
    var n := |links|;
    var last := links[n - 1];
    assert Join(links, Arrow) == (if n == 1 then last else Join(links[..n - 1], Arrow) + Arrow + last);
    assert |last| > 0 && last[|last| - 1] == '>';
    assert Join(links, Arrow)[|Join(links, Arrow)| - 1] == '>';
    RTrimTerminatedIsJoin(links, Arrow, ArrowMask);
  }
}
