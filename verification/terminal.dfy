/** Text shaping shared by the screens of the program. */
module Terminal {

  /** `s[:width]` when `s` is longer than `width`, otherwise `s` unchanged:
      the trimming of a credits line to the screen width, and the limit
      that `getstr` puts on a typed line. */
  function Clip(s: string, width: nat): (r: string)
    ensures |r| <= width && r <= s
    ensures |s| <= width ==> r == s
    ensures |s| > width ==> |r| == width
  {
    if |s| > width then s[..width] else s
  }
}
