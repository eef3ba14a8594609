# Chat log, wire frames and menu logic of spotify-downloader

`main.py` of spotify-downloader is a curses program with a main menu (download a
Spotify playlist, download one song by search, chat, credits, version, exit) and
a small chat client. This project models the sequential logic inside that glue:

- **ChatLog** (`chat_log.dfy`): the `messages` list filled by the receiving
  thread. Each received line is appended; when the list is then longer than
  `curses.LINES - 2`, the oldest line is popped. `MessageLog` is a class over a
  `seq<string>` with `Receive` (one append/evict step) and `Run` (the receive
  loop, which stops at the first failed `recv` or decode and reports the row
  where the error line is drawn). The pure `Admit`/`Feed` functions specify
  them, and `FeedIsWindow` proves that the log is always the most recent
  `max(LINES - 2, 0)` lines in arrival order.
- **Wire** (`wire.dfy`): the handshake (the bare nickname), the outgoing frame
  `nickname + ": " + text` with its inverse `Unframe`, the width of the input row
  blanked after a send, and the send loop of a chat session.
- **Menu** (`menu.dfy`): the `current_row` state machine of `main_menu`, as a
  step function, its fold over a key sequence, and the imperative loop.
- **Credits** (`credits.dfy`): `show_credits` drawing only rows below the
  screen height and trimming each line to the screen width.
- **Download** (`download.dfy`): the YouTube address built from the first
  search result, and the `.mp3` name built with POSIX `os.path.splitext`.
- **Terminal** (`terminal.dfy`): `Clip`, the `s[:width]` trimming shared by
  the credits screen and the 50-character limit of `getstr`.

What the code does, as the model states it:
- On a receive failure the code draws "An error occurred!" at row
  `len(messages)`; it does not add it to `messages`. `MessageLog.Run` returns
  that row and leaves the log unchanged.
- The code appends first and pops afterwards when the list is longer than
  `LINES - 2`. It does not evict before appending. From a log within its bound
  the result is the same, and a capacity of zero or less keeps the log empty.
- The code has no connection-state machine, no `SessionClosed` signal, no lock,
  no cancellation and no guaranteed single `close`. None of these are modelled.

## Model

| member | source | states |
|---|---|---|
| ChatLog.Admit | main.py:100-102 | one received line: the result is a suffix of the old log plus the line; at most one old entry is dropped; a log within `max(LINES-2, 0)` entries stays within it |
| ChatLog.AdmitKeepsNewest | main.py:100-102 | with capacity at least 1 the new line is the last entry, and the entries before it are the old log minus its first entry exactly when the log overflowed |
| ChatLog.AdmitWithoutRoom | main.py:100-102 | with capacity 0 or less the appended line is popped at once and the empty log stays empty |
| ChatLog.AdmitSlides | main.py:100-102 | admitting a line into the last `n` lines of a history gives the last `n` lines of the history extended by that line |
| ChatLog.FeedIsWindow | main.py:93-102 | from any log within its bound, after any arrivals the log is exactly the last `max(LINES-2, 0)` lines of old log followed by the arrivals |
| ChatLog.FromEmpty | main.py:93-102 | from the empty list, `N` arrivals leave `min(N, C)` entries, the most recent ones in arrival order |
| ChatLog.FiveSlotsSevenMessages | main.py:93-102 | capacity 5 and messages m1..m7 leave [m3, m4, m5, m6, m7] |
| ChatLog.MessageLog.constructor | main.py:93 | the list starts empty, with capacity `LINES - 2` |
| ChatLog.MessageLog.Receive | main.py:99-102 | the new list is `Admit` of the old one; a list within its bound stays within it |
| ChatLog.MessageLog.Run | main.py:95-111 | lines are admitted in arrival order up to the first failure; then the error is drawn at row `len(messages)` and nothing after the failure is read; a log within its bound ends as the last `max(LINES-2, 0)` lines of old log plus received lines |
| Terminal.Clip | main.py:200-201 | the trimmed line is a prefix of the line, no longer than the width, and unchanged when it already fits |
| Wire.Frame | main.py:118 | the frame is the nickname, then ": ", then the text, and nothing else |
| Wire.UnframeFrame | main.py:118 | every frame reads back as its text |
| Wire.FrameUnframe | main.py:118 | any wire string that reads back under a nickname is exactly that nickname's frame of the text |
| Wire.FrameInjective | main.py:118 | under one nickname, equal frames mean equal texts |
| Wire.RaeSaysHello | main.py:118 | "rae" and "hello" give "rae: hello" |
| Wire.FramesAmbiguous | main.py:118 | without a delimiter, nickname "a: b" with "c" and nickname "a" with "b: c" send the same bytes |
| Wire.PromptEndsAtInputColumn | main.py:116-117 | the "You: " label drawn at column 0 ends at column 5, where `getstr` echoes the input |
| Wire.Chat | main.py:91-126 | the first write is `Handshake(nickname)`, the bare nickname with nothing added; then one frame per typed line, each line cut to 50 characters and read back exactly; each blanked width, from column 0, covers the label and reaches the end of the echoed line and is at most 55 |
| Menu.Step | main.py:161-186 | a key keeps the highlight on the menu, moves it by at most one row and only with Up or Down; keys other than Up, Down and Enter change nothing; Enter on rows 0 to 3 starts exactly that row's action and keeps the menu open, with the highlight unchanged |
| Menu.ArrowsGuarded | main.py:163-166 | Up moves up only from below the top row, Down moves down only from above the bottom row |
| Menu.RunStaysInRange | main.py:144-166 | after any key sequence from a row on the menu, the highlight is still on one of the six rows |
| Menu.LeftStaysLeft | main.py:185-186 | once the loop is left no further key changes anything |
| Menu.MainMenu | main.py:143-186 | the loop's final row and started actions are those of the step function over all keys; it reads keys up to and including the one that leaves the menu and none after it: every shorter prefix leaves the menu open |
| Menu.VersionRowLeaves | main.py:143-186 | as written, Enter (any of the codes 343, 10, 13) on row 4, labelled "Version: v1.0.0", leaves the menu and changes nothing else |
| Menu.ExitRowStays | main.py:143-186 | as written, Enter (any of the codes 343, 10, 13) on row 5, labelled "Exit", changes nothing |
| Menu.IntendedLeavesOnExit | main.py:143-186 | with the leaving row set to the "Exit" row, Enter leaves exactly on "Exit" and starts an action exactly on rows 0 to 3 |
| Credits.ShowCredits | main.py:194-201 | exactly `min(len(credits), height)` lines are drawn, line `i` on row `i`; each is the source line trimmed to the width, a prefix of it, at most `width` long, and unchanged when it fits |
| Credits.ShowCreditsSmall | main.py:194-201 | the program's three credit lines on a 2-row, 10-column screen: "Credits" and "Author: ra", and no GitHub line |
| Download.VideoUrl | main.py:31-36 | no address exactly when the search found nothing; otherwise the address reads back as the site followed by the first result's suffix |
| Download.DownloadIffFound | main.py:62-69 | the download goes ahead exactly when the search found something, even a result with an empty suffix |
| Download.ExtStartSpec | main.py:54 | the extension starts at the last dot that may start one (a dot in the last path component after something other than dots), and no dot or slash follows it; when no dot may start one, there is no extension |
| Download.SplitExtSpec | main.py:54 | root and extension concatenate to the path; the extension is empty or one dot followed by neither dots nor slashes; it is split off exactly when some dot may start one, and then at the last such dot |
| Download.SplitExtAppend | main.py:54 | a root whose last component is not all dots, followed by a dot and neither dots nor slashes, splits back into that root and that extension |
| Download.Mp3Name | main.py:54 | the name is the downloaded name with its `splitext` extension replaced by ".mp3"; a name without extension just gets ".mp3" appended |
| Download.Mp3NameSplits | main.py:54 | splitting the converted name gives back the stem of the downloaded name and ".mp3" |
| Download.ExtStartOfMp4 | main.py:54 | the extension of "Song.mp4" starts at index 4 |
| Download.Mp3OfMp4 | main.py:54 | "Song.mp4" becomes "Song.mp3" |
| Download.Mp3OfDotName | main.py:54 | ".webm", whose only dot leads the name, becomes ".webm.mp3" |

## Left out

- Sockets (`connect`, `send`, `recv(1024)`, `close`): network I/O. Received lines are abstract `Incoming` values; sent frames are returned as strings.
- The 1024-byte receive buffer and UTF-8 encoding and decoding: strings are sequences of characters, and a decode failure is one of the `Broken` events.
- The receiving thread running beside the input loop, and their unsynchronised sharing of `messages` and the screen: concurrency is not modelled. `Run` and `Chat` are modelled separately.
- All curses drawing, colours, echo, `getch` and `getstr`: only the row and width arithmetic is kept. A drawing error in the receive loop, such as a line that, wrapped onto the rows below, runs past the last row of the screen, would also end that loop through the bare `except`. The model does not capture this.
- ChatLog.MessageLog.constructor: the capacity is fixed when the log is created. The code reads `curses.LINES` again on every append, so it would follow a resize that curses reports.
- Wire.Chat: the line that `getstr` returns is modelled as the typed text cut to 50 characters. The byte counting and decoding of `getstr` are not modelled.
- Menu.MainMenu: `keys` are only the keys read by `getch` at the top of the menu loop (line 161). The "press any key" reads after rows 0, 1 and 3 (lines 173, 179, 208) and the lines typed into the prompts of rows 0 to 2 (`curses_ask_input`) are not part of `keys`; they belong to the actions.
- Menu.MainMenu: the actions of rows 0 to 3 are recorded as started and the loop goes on. In the code, the chat action runs an endless send loop and never returns to the menu.
- The prompts of `curses_ask_input`, the Spotify client and `playlist_items`, YouTube search, pytube download and pydub conversion, and the filesystem calls: foreign services and file I/O. Only the address built at line 36 and the name built at line 54 are modelled.
- `os.path.splitext` is modelled for POSIX paths only; Windows separators are not.
- The pyfiglet banner and its height: a third-party renderer.

## Findings

| source | as written | input that shows it | evidently intended | confidence | as-written member | corrected member |
|---|---|---|---|---|---|---|
| main.py:143-186 | the `break` is on row 4, which is labelled "Version: v1.0.0"; row 5, labelled "Exit", has no branch | highlight "Exit" and press Enter: nothing happens; highlight the version line and press Enter: the program ends | Enter on "Exit" leaves the menu and the version line is only a label | medium, not executed | Menu.ExitRowStays | Menu.IntendedLeavesOnExit |

`Menu.Step` takes the leaving row as a parameter: `LEAVE_ROW` (4) gives the
code as written and `EXIT_ROW` (5) the corrected menu. `Menu.MainMenu` models
the loop as written.
