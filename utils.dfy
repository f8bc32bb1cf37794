/**
 * The display helpers: the client-side domain check, the date, time and
 * location formatting, and text truncation.
 */
module Utils {
  import opened Strings
  import opened Domain

  /** The client-side e-mail check: the raw input ends with the domain suffix, letter case included. */
  function ValidateEmail(email: string): (ok: bool)
    ensures ok <==> exists local :: email == local + DomainSuffix
  {
    EndsWithIffConcat(email, DomainSuffix);
    EndsWith(email, DomainSuffix)
  }

  /** Dates are shown as stored. */
  function FormatDate(date: string): (r: string)
    ensures r == date
  {
    date
  }

  /** Times are shown as stored. */
  function FormatTime(time: string): (r: string)
    ensures r == time
  {
    time
  }

  /** The number of line feeds in `s`. */
  function NewlineCount(s: string): nat {
    if s == [] then 0 else (if s[0] == '\n' then 1 else 0) + NewlineCount(s[1..])
  }

  /** What one character becomes. */
  function Piece(c: char): string {
    if c == '\n' then ", " else [c]
  }

  /**
   * Every line feed replaced by a comma and a space: the result has no line
   * feed, is one character longer per line feed, and is the input itself when
   * there was none.
   */
  function FormatLocation(location: string): (r: string)
    ensures '\n' !in r
    ensures |r| == |location| + NewlineCount(location)
    ensures '\n' !in location ==> r == location
  {
    if location == [] then []
    else
      var rest := FormatLocation(location[1..]);
      assert location == [location[0]] + location[1..];
      Piece(location[0]) + rest
  }

  /** Formatting works piece by piece: a concatenation is formatted part by part. */
  lemma {:induction false} FormatLocationAppend(a: string, b: string)
    ensures FormatLocation(a + b) == FormatLocation(a) + FormatLocation(b)
  {
    if a != [] {
      assert (a + b)[0] == a[0];
      assert (a + b)[1..] == a[1..] + b;
      FormatLocationAppend(a[1..], b);
      calc {
        FormatLocation(a + b);
        Piece(a[0]) + FormatLocation(a[1..] + b);
        Piece(a[0]) + (FormatLocation(a[1..]) + FormatLocation(b));
        (Piece(a[0]) + FormatLocation(a[1..])) + FormatLocation(b);
      }
    } else {
      assert a + b == b;
    }
  }

  /** Formatting an already formatted location changes nothing. */
  lemma FormatLocationIdempotent(location: string)
    ensures FormatLocation(FormatLocation(location)) == FormatLocation(location)
  {
  }

  /**
   * `text` cut to `maxLength` characters followed by "...", unless it already
   * fits. A negative limit keeps no character, as `substring` clamps it to 0.
   */
  function TruncateText(text: string, maxLength: int): (r: string)
    ensures |text| <= maxLength ==> r == text
    ensures |text| > maxLength ==> |r| >= 3 && r[|r| - 3..] == "..."
    ensures |text| > maxLength >= 0 ==> |r| == maxLength + 3 && r[..maxLength] == text[..maxLength]
    ensures maxLength < 0 ==> r == "..."
  {
    if |text| <= maxLength then text
    else
      var keep := if maxLength < 0 then 0 else maxLength;
      text[..keep] + "..."
  }

  /** A truncated text is never longer than the limit plus the three dots, and it starts like the text. */
  lemma TruncatedIsPrefixWithEllipsis(text: string, maxLength: int)
    requires maxLength >= 0
    ensures var r := TruncateText(text, maxLength);
      && |r| <= maxLength + 3
      && (r == text || (r == text[..maxLength] + "..." && |text| > maxLength))
  {
    var r := TruncateText(text, maxLength);
    if |text| > maxLength {
      assert r == r[..maxLength] + r[maxLength..];
    }
  }
}
