/** The credits screen. */
module Credits {
  import opened Terminal

  /** The lines the credits screen shows, top to bottom. */
  const CREDITS := ["Credits", "Author: rae", "Github: https://github.com/thetruerailen/spotify-downloader"]

  /** `show_credits` on a screen of `height` rows and `width` columns: line
      `i` is drawn on row `i`, only while `i < height`, and cut to `width`
      characters when longer. Returns the lines in the order they are drawn. */
  method ShowCredits(credits: seq<string>, height: nat, width: nat) returns (shown: seq<string>)
    ensures |shown| == if |credits| < height then |credits| else height
    ensures forall i :: 0 <= i < |shown| ==> shown[i] == Clip(credits[i], width)
    ensures forall i :: 0 <= i < |shown| ==> |shown[i]| <= width && shown[i] <= credits[i]
    ensures forall i :: 0 <= i < |shown| && |credits[i]| <= width ==> shown[i] == credits[i]
  {
    shown := [];
    var idx := 0;
    while idx < |credits|
      invariant idx <= |credits| && idx <= height
      invariant |shown| == idx
      invariant forall i :: 0 <= i < idx ==> shown[i] == Clip(credits[i], width)
    {
      if idx >= height {
        break;
      }
      var line := credits[idx];
      if |line| > width {
        line := line[..width];
      }
      shown := shown + [line];
      idx := idx + 1;
    }
  }

  /** The credits on a screen of two rows and ten columns: the GitHub line
      is not drawn and the author line loses its last character. */
  method ShowCreditsSmall() returns (shown: seq<string>)
    ensures shown == ["Credits", "Author: ra"]
  {
    shown := ShowCredits(CREDITS, 2, 10);
    assert Clip(CREDITS[1], 10) == "Author: ra";
  }
}
