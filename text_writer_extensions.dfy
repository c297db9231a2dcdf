/**
 * Coloured console output for the command line: writes that set the console colours, write, and
 * reset the colours; header lines underlined with a repeated character; and centring by padding.
 */
module TextWriterExtensions {

  datatype ConsoleColor =
    | Black | DarkBlue | DarkGreen | DarkCyan | DarkRed | DarkMagenta | DarkYellow | Gray
    | DarkGray | Blue | Green | Cyan | Red | Magenta | Yellow | White

  /** A piece of output text and the colours it was written in. */
  datatype Segment = Segment(text: string, foreground: ConsoleColor, background: ConsoleColor)

  const NewLine: string := "\n"

  /** `new string(c, n)`. */
  function Repeat(c: char, n: nat): (s: string)
    ensures |s| == n
    ensures forall i :: 0 <= i < n ==> s[i] == c
  {
    if n == 0 then [] else Repeat(c, n - 1) + [c]
  }

  /**
   * `PadLeft(totalWidth)`: spaces in front up to `totalWidth`; a value already as wide is returned as is.
   * A negative width throws in .NET; `PadCenter` never passes one, so the width is a `nat` here.
   */
  function PadLeft(s: string, totalWidth: nat): (r: string)
    ensures |r| == if totalWidth > |s| then totalWidth else |s|
    ensures r[|r| - |s|..] == s
    ensures forall i :: 0 <= i < |r| - |s| ==> r[i] == ' '
  {
    if totalWidth > |s| then Repeat(' ', totalWidth - |s|) + s else s
  }

  /**
   * `PadRight(totalWidth)`: spaces after up to `totalWidth`; a value already as wide is returned as is.
   * A negative width throws in .NET; `PadCenter` never passes one, so the width is a `nat` here.
   */
  function PadRight(s: string, totalWidth: nat): (r: string)
    ensures |r| == if totalWidth > |s| then totalWidth else |s|
    ensures r[..|s|] == s
    ensures forall i :: |s| <= i < |r| ==> r[i] == ' '
  {
    if totalWidth > |s| then s + Repeat(' ', totalWidth - |s|) else s
  }

  /** `Math.Ceiling(n / 2d)` for a non-negative `n`. */
  function HalfRoundedUp(n: nat): (h: nat)
    ensures 2 * h == n || 2 * h == n + 1
  {
    (n + 1) / 2
  }

  /**
   * `PadCenter`: a value wider than `totalWidth` comes back unchanged. Otherwise the result is exactly
   * `totalWidth` wide: `left` spaces, the value, then spaces, where `left` is half the slack rounded
   * up, so the left padding equals the right padding or exceeds it by one.
   */
  function PadCenter(value: string, totalWidth: int): (r: string)
    ensures |value| >= totalWidth ==> r == value
    ensures |value| < totalWidth ==>
      var left := HalfRoundedUp(totalWidth - |value|);
      var right := totalWidth - |value| - left;
      && |r| == totalWidth
      && r[left..left + |value|] == value
      && (forall i :: 0 <= i < left ==> r[i] == ' ')
      && (forall i :: left + |value| <= i < |r| ==> r[i] == ' ')
      && (left == right || left == right + 1)
  {
    if |value| > totalWidth then value
    else
      var left := HalfRoundedUp(totalWidth - |value|);
      PadRight(PadLeft(value, |value| + left), totalWidth)
  }

  /**
   * The writer together with the console's colour state. `ResetColor` restores both colours to the
   * console's defaults.
   */
  class ColorWriter {
    const defaultForeground: ConsoleColor
    const defaultBackground: ConsoleColor
    var foreground: ConsoleColor
    var background: ConsoleColor
    var output: seq<Segment>

    constructor (defaultForeground: ConsoleColor, defaultBackground: ConsoleColor)
      ensures this.defaultForeground == defaultForeground && this.defaultBackground == defaultBackground
      ensures foreground == defaultForeground && background == defaultBackground && output == []
    {
      this.defaultForeground := defaultForeground;
      this.defaultBackground := defaultBackground;
      foreground := defaultForeground;
      background := defaultBackground;
      output := [];
    }

    /** The raw `TextWriter.Write`, in the current console colours. */
    method Emit(text: string)
      modifies this
      ensures output == old(output) + [Segment(text, foreground, background)]
      ensures foreground == old(foreground) && background == old(background)
    {
      output := output + [Segment(text, foreground, background)];
    }

    method ResetColor()
      modifies this
      ensures foreground == defaultForeground && background == defaultBackground
      ensures output == old(output)
    {
      foreground, background := defaultForeground, defaultBackground;
    }

    /** `ForegroundColorActor` around `Write`: set the foreground, write, reset both colours. */
    method Write(fgColor: ConsoleColor, value: string)
      modifies this
      ensures output == old(output) + [Segment(value, fgColor, old(background))]
      ensures foreground == defaultForeground && background == defaultBackground
    {
      foreground := fgColor;
      Emit(value);
      ResetColor();
    }

    /** `Write` with a background colour: set the background first. */
    method WriteOnBackground(fgColor: ConsoleColor, value: string, bgColor: ConsoleColor)
      modifies this
      ensures output == old(output) + [Segment(value, fgColor, bgColor)]
      ensures foreground == defaultForeground && background == defaultBackground
    {
      background := bgColor;
      Write(fgColor, value);
    }

    /** `WriteInverted`: write in the current colours swapped. */
    method WriteInverted(value: string)
      modifies this
      ensures output == old(output) + [Segment(value, old(background), old(foreground))]
      ensures foreground == defaultForeground && background == defaultBackground
    {
      WriteOnBackground(background, value, foreground);
    }

    /** `ForegroundColorActor` around `WriteLine`. */
    method WriteLine(fgColor: ConsoleColor, value: string)
      modifies this
      ensures output == old(output) + [Segment(value + NewLine, fgColor, old(background))]
      ensures foreground == defaultForeground && background == defaultBackground
    {
      Write(fgColor, value + NewLine);
    }

    method WriteLineOnBackground(fgColor: ConsoleColor, value: string, bgColor: ConsoleColor)
      modifies this
      ensures output == old(output) + [Segment(value + NewLine, fgColor, bgColor)]
      ensures foreground == defaultForeground && background == defaultBackground
    {
      background := bgColor;
      WriteLine(fgColor, value);
    }

    method WriteLineInverted(value: string)
      modifies this
      ensures output == old(output) + [Segment(value + NewLine, old(background), old(foreground))]
      ensures foreground == defaultForeground && background == defaultBackground
    {
      WriteLineOnBackground(background, value, foreground);
    }

    /**
     * `WriteHeader`: the value line, a blank line only when `expand`, then a rule of `header`
     * repeated as many times as the value is long. The value line keeps the background that was
     * current; the lines after it are in the default background.
     */
    method WriteHeader(value: string, header: char, valueColor: ConsoleColor, headerColor: ConsoleColor, expand: bool)
      modifies this
      ensures output == old(output)
        + [Segment(value + NewLine, valueColor, old(background))]
        + (if expand then [Segment(NewLine, defaultForeground, defaultBackground)] else [])
        + [Segment(Repeat(header, |value|) + NewLine, headerColor, defaultBackground)]
      ensures foreground == defaultForeground && background == defaultBackground
    {
      WriteLine(valueColor, value);
      if expand {
        Emit(NewLine);
      }
      WriteLine(headerColor, Repeat(header, |value|));
    }

    /** `WriteWrappedHeader`: a rule as long as the value (and a blank line when `expand`) before the header. */
    method WriteWrappedHeader(value: string, header: char, valueColor: ConsoleColor, headerColor: ConsoleColor, expand: bool)
      modifies this
      ensures output == old(output)
        + [Segment(Repeat(header, |value|) + NewLine, headerColor, old(background))]
        + (if expand then [Segment(NewLine, defaultForeground, defaultBackground)] else [])
        + [Segment(value + NewLine, valueColor, defaultBackground)]
        + (if expand then [Segment(NewLine, defaultForeground, defaultBackground)] else [])
        + [Segment(Repeat(header, |value|) + NewLine, headerColor, defaultBackground)]
      ensures foreground == defaultForeground && background == defaultBackground
    {
      WriteLine(headerColor, Repeat(header, |value|));
      if expand {
        Emit(NewLine);
      }
      WriteHeader(value, header, valueColor, headerColor, expand);
    }
  }
}
