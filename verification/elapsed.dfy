/** `format_elapsed_time` of tools/detect_scenes.py: an elapsed time as
    "M minutes, S seconds and N milliseconds", leaving out the units that
    are zero. The elapsed time is a whole number of milliseconds here.
 */
module Elapsed {
  import opened Text

  /** "n word" with an "s" unless n is 1. */
  function Unit(n: nat, word: string): string {
    Decimal(n) + " " + word + (if n != 1 then "s" else "")
  }

  /** Whole minutes, seconds within the minute and milliseconds within the
      second. */
  function Minutes(ms: nat): nat { ms / 60000 }
  function Seconds(ms: nat): nat { ms / 1000 % 60 }
  function Millis(ms: nat): nat { ms % 1000 }

  /** The non-zero units, largest first. */
  function Parts(ms: nat): (parts: seq<string>)
    ensures |parts| <= 3
  {
    (if Minutes(ms) > 0 then [Unit(Minutes(ms), "minute")] else [])
    + (if Seconds(ms) > 0 then [Unit(Seconds(ms), "second")] else [])
    + (if Millis(ms) > 0 then [Unit(Millis(ms), "millisecond")] else [])
  }

  /** Two or more parts read "a, b and c"; one part is itself; none is
      "0 milliseconds". */
  function JoinParts(parts: seq<string>): string {
    if |parts| > 1 then Join(", ", parts[..|parts| - 1]) + " and " + parts[|parts| - 1]
    else if |parts| == 1 then parts[0]
    else "0 milliseconds"
  }

  function FormatElapsedTime(ms: nat): string {
    JoinParts(Parts(ms))
  }

  // ---------------------------------------------------------------- properties

  /** The three units add back up to the elapsed time and stay within their
      ranges. */
  lemma UnitsAddUp(ms: nat)
    ensures Minutes(ms) * 60000 + Seconds(ms) * 1000 + Millis(ms) == ms
    ensures Seconds(ms) < 60 && Millis(ms) < 1000
  {
  }

  /** Nothing is listed exactly when no time elapsed, and then the text is
      "0 milliseconds". */
  lemma NothingElapsed(ms: nat)
    ensures |Parts(ms)| == 0 <==> ms == 0
    ensures ms == 0 ==> FormatElapsedTime(ms) == "0 milliseconds"
  {
    UnitsAddUp(ms);
  }

  /** A unit is listed exactly when its count is non-zero, in the order
      minutes, seconds, milliseconds. */
  lemma PartsListed(ms: nat)
    ensures var m, s, n := Minutes(ms), Seconds(ms), Millis(ms);
            Parts(ms) == (if m > 0 then [Unit(m, "minute")] else [])
                         + (if s > 0 then [Unit(s, "second")] else [])
                         + (if n > 0 then [Unit(n, "millisecond")] else [])
    ensures |Parts(ms)| == (if Minutes(ms) > 0 then 1 else 0) + (if Seconds(ms) > 0 then 1 else 0)
                           + (if Millis(ms) > 0 then 1 else 0)
  {
  }

  /** A unit word takes the plural "s" exactly when its count is not 1. */
  lemma PluralUnlessOne(n: nat, word: string)
    requires |word| > 0 && word[|word| - 1] != 's'
    ensures EndsWith(Unit(n, word), "s") <==> n != 1
  {
    var u := Unit(n, word);
    if n == 1 {
      assert u[|u| - 1] == word[|word| - 1];
    } else {
      assert u[|u| - 1] == 's';
    }
  }

  /** The shapes of the sentence: "a and b" for two parts, "a, b and c" for
      three, the part alone for one. */
  lemma Sentence(parts: seq<string>)
    ensures |parts| == 1 ==> JoinParts(parts) == parts[0]
    ensures |parts| == 2 ==> JoinParts(parts) == parts[0] + " and " + parts[1]
    ensures |parts| == 3 ==> JoinParts(parts) == parts[0] + ", " + parts[1] + " and " + parts[2]
  {
    if |parts| == 3 {
      var init := parts[..2];
      assert init[1..] == [parts[1]];
      assert Join(", ", init) == parts[0] + ", " + parts[1];
    } else if |parts| == 2 {
      assert parts[..1] == [parts[0]];
    }
  }
}
