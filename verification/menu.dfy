/** The main menu: a highlighted row moved by the arrow keys, and an action
    chosen with Enter. */
module Menu {

  const VERSION := "v1.0.0"
  const MENU: seq<string> := ["Download Spotify Playlist", "Download Song by Search", "Chat",
                              "Credits", "Version: " + VERSION, "Exit"]

  /** Key codes as curses reports them. */
  const KEY_DOWN := 258
  const KEY_UP := 259
  const KEY_ENTER := 343

  /** The row on which Enter leaves the menu in the program as written. */
  const LEAVE_ROW := 4
  /** The row labelled "Exit". */
  const EXIT_ROW := 5

  /** Enter is the curses key code or a line feed or carriage return. */
  predicate IsEnter(key: int)
  {
    key == KEY_ENTER || key == 10 || key == 13
  }

  /** What Enter starts on rows 0 to 3. */
  datatype Action = DownloadPlaylist | DownloadSong | Chat | ShowCredits

  function ActionAt(row: int): Action
    requires 0 <= row < 4
  {
    if row == 0 then DownloadPlaylist
    else if row == 1 then DownloadSong
    else if row == 2 then Chat
    else ShowCredits
  }

  /** The highlighted row, the actions started so far, and whether the
      menu loop is still running. */
  datatype MenuState = MenuState(row: int, started: seq<Action>, open: bool)

  const Initial := MenuState(0, [], true)

  predicate InRange(row: int)
  {
    0 <= row < |MENU|
  }

  /** One key press. Up and Down move the highlight by one row and never past
      either end; Enter starts the action of rows 0 to 3 or leaves the menu on
      `leaveRow`; any other key, and Enter on any other row, changes nothing.
      A menu that has been left reads no more keys. */
  function Step(s: MenuState, key: int, leaveRow: int): (t: MenuState)
    ensures InRange(s.row) ==> InRange(t.row)
    ensures t.row == s.row || (key == KEY_UP && t.row == s.row - 1) || (key == KEY_DOWN && t.row == s.row + 1)
    ensures !IsEnter(key) ==> t.started == s.started && t.open == s.open
    ensures key != KEY_UP && key != KEY_DOWN && !IsEnter(key) ==> t == s
    ensures t.open ==> s.open
    ensures s.open && IsEnter(key) && 0 <= s.row < 4 ==> t == s.(started := s.started + [ActionAt(s.row)])
    ensures s.started <= t.started && |t.started| <= |s.started| + 1
  {
    if !s.open then s
    else if key == KEY_UP && s.row > 0 then s.(row := s.row - 1)
    else if key == KEY_DOWN && s.row < |MENU| - 1 then s.(row := s.row + 1)
    else if IsEnter(key) then
      if 0 <= s.row < 4 then s.(started := s.started + [ActionAt(s.row)])
      else if s.row == leaveRow then s.(open := false)
      else s
    else s
  }

  /** The menu after the keys `keys`, pressed in order. */
  function Run(s: MenuState, keys: seq<int>, leaveRow: int): MenuState
    decreases |keys|
  {
    if keys == [] then s else Step(Run(s, keys[..|keys| - 1], leaveRow), keys[|keys| - 1], leaveRow)
  }

  /** Up moves only off a row below the top, Down only off a row above the
      bottom. */
  lemma ArrowsGuarded(s: MenuState, leaveRow: int)
    requires s.open && InRange(s.row)
    ensures Step(s, KEY_UP, leaveRow).row == if s.row > 0 then s.row - 1 else s.row
    ensures Step(s, KEY_DOWN, leaveRow).row == if s.row < |MENU| - 1 then s.row + 1 else s.row
  {
  }

  /** No sequence of keys takes the highlight off the menu. */
  lemma {:induction false} RunStaysInRange(s: MenuState, keys: seq<int>, leaveRow: int)
    requires InRange(s.row)
    ensures InRange(Run(s, keys, leaveRow).row)
    decreases |keys|
  {
    if keys != [] {
      RunStaysInRange(s, keys[..|keys| - 1], leaveRow);
    }
  }

  /** Once left, the menu stays left and starts nothing more, whatever keys follow. */
  lemma {:induction false} LeftStaysLeft(s: MenuState, keys: seq<int>, leaveRow: int)
    requires !s.open
    ensures Run(s, keys, leaveRow) == s
    decreases |keys|
  {
    if keys != [] {
      LeftStaysLeft(s, keys[..|keys| - 1], leaveRow);
    }
  }

  /** The loop of `main_menu`, fed the keys its own `getch` at the top of the
      loop returns (the input read inside an action, for its prompts or its
      "press any key", is not part of `keys`): it stops reading keys once
      Enter is pressed on row 4, and reads no key after the one that left. */
  method MainMenu(keys: seq<int>) returns (row: int, started: seq<Action>, used: nat)
    ensures used <= |keys| && InRange(row)
    ensures Run(Initial, keys, LEAVE_ROW).row == row && Run(Initial, keys, LEAVE_ROW).started == started
    ensures used < |keys| ==> !Run(Initial, keys[..used], LEAVE_ROW).open
    ensures Run(Initial, keys, LEAVE_ROW) == Run(Initial, keys[..used], LEAVE_ROW)
    ensures forall j :: 0 <= j < used ==> Run(Initial, keys[..j], LEAVE_ROW).open
  {
    row, started, used := 0, [], 0;
    var open := true;
    while used < |keys|
      invariant used <= |keys| && InRange(row) && open
      invariant Run(Initial, keys[..used], LEAVE_ROW) == MenuState(row, started, true)
      invariant forall j :: 0 <= j <= used ==> Run(Initial, keys[..j], LEAVE_ROW).open
    {
      var key := keys[used];
      assert keys[..used + 1][..used] == keys[..used];
      used := used + 1;
      if key == KEY_UP && row > 0 {
        row := row - 1;
      } else if key == KEY_DOWN && row < |MENU| - 1 {
        row := row + 1;
      } else if key == KEY_ENTER || key == 10 || key == 13 {
        if row == 0 {
          started := started + [DownloadPlaylist];
        } else if row == 1 {
          started := started + [DownloadSong];
        } else if row == 2 {
          started := started + [Chat];
        } else if row == 3 {
          started := started + [ShowCredits];
        } else if row == 4 {
          open := false;
          break;
        }
      }
    }
    ghost var s := Run(Initial, keys[..used], LEAVE_ROW);
    if !open {
      LeftStaysLeft(s, keys[used..], LEAVE_ROW);
      assert keys == keys[..used] + keys[used..];
      RunAppend(Initial, keys[..used], keys[used..], LEAVE_ROW);
    } else {
      assert keys[..used] == keys;
    }
  }

  /** Pressing `a` then `b` is pressing `a + b`. */
  lemma {:induction false} RunAppend(s: MenuState, a: seq<int>, b: seq<int>, leaveRow: int)
    ensures Run(s, a + b, leaveRow) == Run(Run(s, a, leaveRow), b, leaveRow)
    decreases |b|
  {
    if b != [] {
      var k := |b| - 1;
      assert (a + b)[..|a + b| - 1] == a + b[..k];
      RunAppend(s, a, b[..k], leaveRow);
    } else {
      assert a + b == a;
    }
  }

  /** As written, any Enter code on the "Version" row leaves the menu and
      changes nothing else. */
  lemma VersionRowLeaves(s: MenuState, key: int)
    requires s.open && s.row == 4 && IsEnter(key)
    ensures MENU[4] == "Version: v1.0.0"
    ensures Step(s, key, LEAVE_ROW) == s.(open := false)
  {
  }

  /** As written, any Enter code on the "Exit" row does nothing at all. */
  lemma ExitRowStays(s: MenuState, key: int)
    requires s.open && s.row == EXIT_ROW && IsEnter(key)
    ensures MENU[EXIT_ROW] == "Exit"
    ensures Step(s, key, LEAVE_ROW) == s
  {
  }

  /** Leaving on the "Exit" row instead: Enter leaves the menu exactly when
      the highlighted row is labelled "Exit", and starts an action exactly on
      the four action rows. */
  lemma IntendedLeavesOnExit(s: MenuState, key: int)
    requires s.open && InRange(s.row) && IsEnter(key)
    ensures !Step(s, key, EXIT_ROW).open <==> MENU[s.row] == "Exit"
    ensures Step(s, key, EXIT_ROW).started != s.started <==> s.row < 4
  {
    assert MENU[4] != "Exit";
  }
}
