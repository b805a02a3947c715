# Two-player hockey server, client rules and framers in Dafny

A model of the authoritative core of a networked two-player air-hockey game.

The server in `old/server.py` owns the match state. On every tick it:

- starts or pauses play, depending on how many players are registered;
- moves both paddles;
- runs the match clock;
- moves the ball, bouncing it off the floor, the ceiling, the "C"-shaped goals and the paddles;
- counts goals and decides the winner when time runs out.

Connections are admitted into one of two player slots. Each connection sends direction messages, one per line, and the last message a slot received is what the simulation uses. The client (`old/client.py`) does three things:

- it pulls the JSON objects the server broadcasts out of its receive buffer by counting braces;
- it shows the remaining time as `m:ss`;
- it turns the arrow keys into a direction and sends that direction when it changes, and otherwise every 0.1 s.

Modules, one file each:

| module | file | what it holds |
|---|---|---|
| `Wrappers` | `wrappers.dfy` | `Option` |
| `Geometry` | `geometry.dfy` | the constants of `old/config.py`, plus `FIELD_CENTER_Y` and the paddle speed |
| `GameModel` | `game_model.dfy` | the twelve-field `GameState`, `PlayerInput`, the initial state and the state invariant `Valid` |
| `Physics` | `physics.dfy` | `reset_ball`, flight, the wall, post and bar bounces, the goal check and `check_paddle_collision` |
| `ServerTick` | `server_tick.dfy` | the locked body of `game_loop` as a pure `Step` over a `TickInput` (both inputs, the player count, `dt`), and `Run` over a sequence of ticks |
| `Sessions` | `sessions.dfy` | slot admission and release in `handle_client`, and how received lines overwrite the slot inputs |
| `Text` | `text.dfy` | Python's `str.split` and `str.join` on strings |
| `LineFraming` | `line_framing.dfy` | `get_lines` as a function from received chunks to lines, with the delimiter as a parameter |
| `BraceScan` | `brace_scan.dfy` | the client's receive buffer: brace counting, block extraction, and the latest decoded state |
| `ClientRules` | `client_rules.dfy` | the clock text, the key direction and the send throttle |

Some things the program gets from outside are parameters of the model:

- `cos` and `sin` are a `Trig` record. Only its sign is assumed: lemmas that need it require `CosPositive`, which says the cosine is positive on [-π/4, π/4].
- The tick length `dt` is a parameter; the timer lemmas require `dt >= 0`.
- JSON decoding is a function parameter from a string to an `Option`.
- Chunks arrive already decoded into strings.

## Model

| member | source | states |
|---|---|---|
| Geometry.GeometryFacts | old/config.py:28-45 | GOAL_HEIGHT is 178, GOAL_Y is 241 and FIELD_CENTER_Y is 330. The goal has 181-pixel margins above and below and lies strictly inside the playable field. The paddle line at 110 is in front of the goal bars, which end at 88. The paddle range is [84, 576] and the ball range is [67, 593]. |
| GameModel.WinnerOf | old/server.py:205-210 | The winner is 1 exactly when score1 is higher, 2 exactly when score2 is higher, and 0 exactly on a tie. |
| GameModel.InitialIsValid | old/server.py:21-31 | The state the server starts with satisfies the invariant `Valid`. |
| Physics.WallBounce | old/server.py:220-226 | After the floor/ceiling check the ball's y is in [67, 593]. A ball at or above the ceiling is placed at 67 with vy ≥ 0, one at or below the floor at 593 with vy ≤ 0. The speed |vy| is kept. A ball strictly between them is untouched, and x and vx never change. |
| Physics.Flight | old/server.py:217-226 | One step of flight then the wall bounce: x moves by vx and vx is kept. The speed |vy| is kept and y ends in [67, 593]. A ball whose new y is strictly inside that range keeps that y and vy. |
| Physics.GoalCheck | old/server.py:235-245 | No goal is counted outside the scoring window [241, 419]. A left goal needs the ball's edge at or past x = 40, a right goal its edge at or past 760 (and not at the left). Inside the window, no goal means the ball's centre is strictly between 47 and 753. |
| Physics.PostBounce | old/server.py:247-253 | The post bounce never touches y or vy, and keeps the speed |vx|. It does nothing inside the goal's scoring window, or when the ball's edge reaches neither post (x − 7 ≤ 40 + 9 on the left, x + 7 ≥ 760 − 9 on the right). Outside the window, a ball at the left post is placed at x = 56 with vx ≥ 0, and one at the right post at x = 744 with vx ≤ 0. |
| Physics.BarReflect | old/server.py:258-264 | A ball whose centre is more than 16 (half the bar plus half the ball) from the bar is unchanged. Otherwise a ball at or above the bar's line is placed at barY − 16 with vy ≤ 0, and one below it at barY + 16 with vy ≥ 0. The speed |vy| is kept, and x and vx never change. |
| Physics.BarBounce | old/server.py:255-288 | A ball over either goal's bars and within 16 of the top bar (y 241) or the bottom bar (y 419) is placed 16 from that bar, on the side its centre is on (above when level), with vy pointing away from the bar and |vy| kept. A ball over neither goal, or near neither bar, is untouched. x and vx never change, and a ball between floor and ceiling stays between them. |
| Physics.GoalBarsReflect | old/server.py:256-271 | One goal's top and bottom bar checks, in order: the bar the ball is near pushes it clear, and the other bar is then out of reach. |
| Physics.ImpactOffset | old/server.py:130-132 | The impact offset is the ball's distance from the paddle centre over half the paddle height, clamped to [-1, 1]. |
| Physics.PaddleCollision | old/server.py:123-148 | The paddle hits exactly when the boxes overlap; without overlap the ball is returned unchanged. y never changes. On a hit the ball is placed PADDLE_WIDTH//2 + BALL_SIZE//2 from the paddle centre, on the side the new vx points to. |
| Physics.PaddleBounceTurnsBack | old/server.py:134-146 | Given a cosine that is positive on [-π/4, π/4], a hit makes the new vx negative exactly when the old vx was positive. The ball is then placed on the side of the paddle it now moves towards. |
| ServerTick.StartOrPause | old/server.py:166-182 | After the match is over nothing changes. Otherwise play is started afterwards exactly when at least two players are registered. The state changes only when `started` flips: a start puts the ball at the centre, a pause stops the ball. Paddles, scores, clock and result are never touched. |
| ServerTick.RunningTick | old/server.py:199-213 | The paddles take their new positions. The clock ends at 0 or above and, when dt ≥ 0, not above max(0, old clock). When it reaches 0 the match is over, the winner follows the scores, the scores are kept and the ball stops. Otherwise `over` and the winner are unchanged, the ball is in the field, and the scores do not decrease and rise by at most one in total. |
| ServerTick.MovePaddle | old/server.py:185-189 | For any integer direction the new paddle y is in [84, 576]. It is the target y + 5·direction when that target is in range, and otherwise the bound it overshot. |
| ServerTick.Play | old/server.py:215-300 | After the ball moves it is between floor and ceiling and within one ball size of the side walls. A left-mouth goal gives player 2 exactly one point, a right-mouth goal gives player 1 exactly one point, and either way the ball is at the centre. Without a goal both scores are unchanged. |
| ServerTick.Step | old/server.py:164-316 | Whatever the two directions, both paddles end every tick within [84, 576]. |
| ServerTick.RunningIffTwoPlayers | old/server.py:166-182 | Play runs on a tick exactly when at least two players are registered and the match is not over. |
| ServerTick.PaddleMotion | old/server.py:184-189 | Paddles move on every tick, before the start and after the end included. A direction in {-1, 0, 1} moves a paddle by at most 5 pixels. |
| ServerTick.StartTick | old/server.py:166-218 | A stopped match with two players that is not over starts, with the ball reset to (400, 330) heading right at speed 6. Unless the clock runs out, the same tick then moves the ball one step right. |
| ServerTick.PauseTick | old/server.py:177-182 | A started match that drops below two players stops the ball and clears `started`. Position, scores, clock and result are untouched; only the paddles move. |
| ServerTick.TimerCountdown | old/server.py:199-201 | With dt ≥ 0 the clock never increases and never goes below 0. It becomes max(0, time_left − dt) on a running tick and is unchanged otherwise. |
| ServerTick.TimeUpEndsMatch | old/server.py:202-213 | The match ends exactly on a running tick whose clock reaches zero. That tick sets the winner from the scores, leaves the scores as they were and stops the ball. |
| ServerTick.OverIsTerminal | old/server.py:164-316 | Once the match is over, a tick changes nothing but the two paddle positions. |
| ServerTick.OverStaysOver | old/server.py:303-316 | Over any sequence of ticks after the end, only the paddle positions ever change. |
| ServerTick.GoalScores | old/server.py:235-245 | On a running tick that does not end the match, the goal check on the moved ball decides the score: one point to the scorer and the ball at the centre, or both scores unchanged. |
| ServerTick.ScoresMonotone | old/server.py:236-245 | On every tick the scores never decrease, and together they go up by at most one. |
| ServerTick.BallStaysInField | old/server.py:221-300 | After a running tick the ball's y is in [67, 593] and its x is in [−14, 814]. |
| ServerTick.StepPreservesValid | old/server.py:164-316 | A tick with dt ≥ 0 keeps the state invariant: paddles and ball in range, the clock at least 0 and positive until the end, a winner only once over, and an idle ball whenever play is not running. |
| ServerTick.RunPreservesValid | old/server.py:158-316 | Every state reached by ticks with dt ≥ 0 from a valid state is valid. |
| Sessions.Connect | old/server.py:72-84 | A known connection keeps its slot. A new one is admitted exactly when fewer than two are registered, and then gets slot (number registered) + 1. |
| Sessions.RegistryStaysWellFormed | old/server.py:72-112 | Admission and release keep at most two registered connections, each in slot 1 or 2. Releasing twice is the same as releasing once. |
| Sessions.ThirdConnectionRejected | old/server.py:78-81 | With two connections registered, a third is rejected and nothing is registered. |
| Sessions.DisconnectShrinks | old/server.py:110-112 | Releasing a registered connection shrinks the registry by one; releasing an unknown one changes nothing. |
| Sessions.SlotReusedAfterPlayerOneLeaves | old/server.py:74-77 | After player 1 leaves, the next connection is given slot 2 again, so two connections hold slot 2. |
| Sessions.ConnectFreeSlot | old/server.py:72-84 | The corrected rule admits and rejects exactly as the original does, but gives a new connection a slot no registered connection holds. |
| Sessions.FreeSlotKeepsSlotsDistinct | old/server.py:72-112 | Under the corrected rule, admission and release keep the registry well formed with distinct slots. |
| Sessions.Disconnect | old/server.py:110-112 | Releasing a connection removes it and only it: every other registered connection keeps its slot, and nothing is added. |
| Sessions.HandleLine | old/server.py:89-102 | An empty line or one that does not decode changes no input. A decoded line sets its own slot's input to the `direction` field, 0 when the field is missing, with no range check. The other slot is never touched. |
| Sessions.Ingest | old/server.py:89-102 | However many lines a connection sends, the slot it does not hold keeps its input. |
| Sessions.LastWriteWins | old/server.py:89-100 | After a connection's lines, its slot holds the direction of the last line that decoded, or its old input if none did. The other slot is unchanged. |
| Text.Split | server.py:27 | A split always has at least one piece, so `parts[-1]` exists. |
| Text.JoinEnds | server.py:27 | A join starts with its first piece and ends with its last. |
| Text.JoinSplit | server.py:27 | Joining the pieces of a split with the separator gives the text back, for any non-empty separator. |
| Text.SplitJoin | server.py:27 | Pieces free of a one-character separator are recovered by splitting their join. |
| Text.SplitConcat | server.py:27 | Splitting at one character distributes over concatenation: the last piece of the first text fuses with the first piece of the second. |
| Text.SplitPiecesFree | server.py:27 | No piece of a split contains the one-character separator. |
| LineFraming.EmitPieces | server.py:29-33 | The lines emitted for one chunk, followed by the carried line, are the carried text joined to the first piece, then the remaining pieces. |
| LineFraming.FeedPieces | server.py:26-33 | With a one-character delimiter, a chunk's lines followed by the new carried line are the pieces of the old carried line plus the chunk. |
| LineFraming.PendingIsDelimiterFree | server.py:31-33 | Neither the carried line nor any yielded line contains the one-character delimiter. |
| LineFraming.LinesFromIsLinesOf | server.py:17-33 | From any delimiter-free carried line, the generator yields exactly the lines of the carried text plus all remaining chunks. |
| LineFraming.GetLines | server.py:17-33 | With a one-character delimiter, the generator yields the pieces of the whole received text, the last piece only if it is non-empty. |
| LineFraming.ChunkIndependence | server.py:18-33 | Two chunkings of the same text yield the same lines when the delimiter is one character. |
| LineFraming.LinesAreDelimiterFree | server.py:27-31 | No yielded line contains the delimiter. |
| LineFraming.JoinRestoresText | server.py:20-33 | Joining the yielded lines with the delimiter gives back the received text, minus one final delimiter if the text ends with one. |
| LineFraming.DoubleDelimiterYieldsEmptyLine | server.py:29-31 | Two delimiters in a row yield an empty line. |
| LineFraming.UnterminatedTail | server.py:21-24 | A final unterminated piece is yielded once, as the last line, and only if it is non-empty. A text with no delimiter before it yields nothing else. |
| LineFraming.EscapedNewlineDependsOnChunking | old/server.py:48-65 | With the two-character delimiter of the old server, one chunk "a\\nb" yields "a" and "b". The same text cut inside the delimiter yields one line "a\\nb". |
| BraceScan.FindChar | old/client.py:55 | `find` gives the first position of the character, and gives none exactly when the character does not occur. |
| BraceScan.Scan | old/client.py:60-69 | The brace loop stops at the first closing brace that returns the running count to zero. If it stops nowhere, every prefix is still open. |
| BraceScan.Close | old/client.py:60-69 | From the first opening brace, the block closes at the first point where the brace count returns to zero, or is open at every point. |
| BraceScan.Drain | old/client.py:54-83 | What the buffer keeps after the loop is empty or starts with '{', and is never longer than the buffer. |
| BraceScan.DrainOpen | old/client.py:59-83 | From an opening brace the kept tail is empty or starts with '{'. Nothing is taken exactly when the whole text is kept. |
| BraceScan.DrainTakesFirstBlock | old/client.py:55-83 | When the block at the first '{' (position start) closes at e, the first block taken is buffer[start..start+e+1], and the rest of the blocks and the kept tail are what the loop gives for the buffer after that block. |
| BraceScan.DrainKeepsOpenBlock | old/client.py:55-75 | When the block at the first '{' does not close, nothing is taken and the buffer is kept from that '{' on. |
| BraceScan.DrainShape | old/client.py:54-83 | Every extracted block starts with '{', has depth ≥ 1 on every proper prefix and depth 0 at its end. What is kept is empty or an open block starting with '{', and is the tail of the buffer. |
| BraceScan.NothingTakenIffNoBrace | old/client.py:55-58 | The buffer is cleared with nothing extracted exactly when it holds no '{'. |
| BraceScan.DrainSkip | old/client.py:55-75 | Text before the first '{' is discarded: prepending brace-free text changes nothing. |
| BraceScan.CloseExtends | old/client.py:60-75 | Data arriving after a block has closed does not move its closing point. A block that has not closed can only close in the new data. |
| BraceScan.DrainStreams | old/client.py:47-83 | Draining a buffer, then draining the kept tail with the next data, gives the same blocks and tail as draining everything at once. |
| BraceScan.DrainFrame | old/client.py:54-83 | Balanced blocks each followed by a delimiter without '{' are taken apart into exactly those blocks; the server frames its broadcasts this way. |
| BraceScan.LatestIsLastDecoded | old/client.py:76-83 | The displayed state is the last block that decodes. Blocks that fail to decode are dropped, and the old state stays if none decodes. |
| BraceScan.Receive | old/client.py:48-83 | After one `recv` the buffer is empty or starts with '{', and is never longer than the old buffer and the chunk together. |
| BraceScan.ReceiveStreams | old/client.py:50-83 | Two `recv`s leave buffer and state where one `recv` of both chunks would. |
| BraceScan.ScanAsWritten | old/client.py:54-83 | The loop as written keeps a buffer that is empty or starts with '{' and is no longer than the one scanned. Once a state has been decoded it is never lost. |
| BraceScan.ScanOpenAsWritten | old/client.py:59-83 | The same for the loop body from the first opening brace, with the second cut after a failed decode. |
| BraceScan.ScanAsWrittenAllDecode | old/client.py:76-83 | When every block taken decodes, the loop as written leaves the same buffer and state as the corrected loop. |
| BraceScan.FramedStreamAsWritten | old/client.py:54-83 | As written, a stream of framed blocks that all decode leaves an empty buffer and the last block as the state, or the old state for no blocks. |
| BraceScan.DoubleCutLosesNextBlock | old/client.py:76-83 | As written, one `recv` of `{x}{"k":1}` where `{x}` fails to decode ends with no state. The same text in two `recv`s ends with 1, and so does the corrected loop with one `recv`. |
| ClientRules.ClockOf | old/client.py:112-114 | Seconds are below 60. Zero or negative time shows 0. Otherwise minutes·60 + seconds is the whole number of seconds left: not more than the time, and within one second of it. |
| ClientRules.ClockMonotone | old/client.py:112-114 | As the time counts down the clock never goes up. |
| ClientRules.ClockText | old/client.py:112-115 | The clock text is at least four characters: minutes without a colon, a colon, a tens-of-seconds digit from 0 to 5 and a units digit. |
| ClientRules.ClockTextRoundTrip | old/client.py:112-115 | The `m:ss` text reads back as the whole seconds it shows. |
| ClientRules.ClockAtKickOff | old/client.py:112-115 | At 180 seconds the clock is 3 minutes 0 seconds, shown as "3:00". |
| ClientRules.KeyDirection | old/client.py:257-262 | The direction is −1 exactly when Up is held, so Up wins over Down. It is +1 exactly when only Down is held, and 0 when neither is. |
| ClientRules.KeysMovePaddleOneStep | old/client.py:257-262 | Any key combination makes the server move the paddle by at most one step, and never against the key. |
| ClientRules.Throttle | old/client.py:265-269 | A message is sent exactly when the direction changed or at least 0.1 s passed since the last send. Sending records the direction and the time. Afterwards the held direction is always the current one. |
| ClientRules.ThrottleKeepsFresh | old/client.py:265-269 | Right after a frame, the last send is less than 0.1 s old. |
| ClientRules.RunFrames | old/client.py:257-269 | There is one send decision per frame. Every direction sent is the one the keys of that frame give, and the sender ends holding the last frame's direction, or is unchanged after no frames. |
| ClientRules.RunFramesReports | old/client.py:243-269 | Over frames in time order, every change of keys is sent in the frame it happens. The sender ends holding the last frame's direction, with a send less than 0.1 s before the last frame. |

## Left out

- Sockets, `accept`, `recv`/`sendall`, the broadcast fan-out and the removal of dead clients (old/server.py:318-354) are network I/O. The broadcast's framing appears only as the delimiter of `BraceScan.DrainFrame`.
- Threads and the mutex are left out. Each locked region is one atomic `Step` or one registry operation, so no interleavings are modelled.
- `perf_counter` and `sleep` are left out: tick pacing is wall-clock time. `dt` is a parameter.
- JSON encoding and decoding, `line.strip()`, and UTF-8 decoding with `errors="ignore"` are library calls. They are function parameters, or chunks are taken as already decoded.
- Physics.PaddleCollision: the speed after a paddle bounce is not stated, because `cos`/`sin` are parameters and only the cosine's sign is assumed.
- Floats are `real`, so IEEE rounding is left out. This covers `0.33` in GOAL_HEIGHT (178 either way) and the comparison with SEND_EVERY = 0.10.
- Pygame drawing, event handling and `clock.tick`, and the stdin loop of client.py, are user interface and I/O.
- config.py, the `handle_client` of server.py and argument parsing are outside the game logic. The newer `get_lines` of server.py is modelled, with "\n" as its delimiter.
- An exception other than a decode error in the client's receive thread ends the thread; only the `JSONDecodeError` path is modelled. `BraceScan.ScanAsWritten` models that path as written, with its second cut (see Findings). `BraceScan.Drain` and `BraceScan.Receive` drop only the failed block.
- BraceScan.DrainSkip: stated of the corrected loop. The loop as written agrees whenever every block decodes (`BraceScan.ScanAsWrittenAllDecode`).
- BraceScan.DrainStreams: stated of the corrected loop. As written, a failed block can swallow the start of the next block in the same `recv`, so the split into `recv`s matters (`BraceScan.DoubleCutLosesNextBlock`).
- BraceScan.DrainFrame: stated of the corrected loop. For the loop as written, `BraceScan.FramedStreamAsWritten` states the same when every block decodes.
- BraceScan.LatestIsLastDecoded: stated of the corrected loop. As written, a block that follows a failed one in the same `recv` may never be decoded.
- BraceScan.ReceiveStreams: holds for the corrected loop only. The loop as written breaks it (`BraceScan.DoubleCutLosesNextBlock`).
- LineFraming.ChunkIndependence: stated for already-decoded text. server.py:26 decodes each 8-byte `recv` with `errors="ignore"`, so a multi-byte UTF-8 character cut by a `recv` boundary is dropped, and the lines can still depend on the chunking.
- Physics.Advance: its only content is its body, one step of the ball by its velocity. It is stated through `Physics.Flight`.
- The code makes these choices, and the model follows them:
  - a slot is chosen from the registry size, not by which slot is free;
  - play starts at `>= 2` registered players;
  - a `direction` is not range-checked, and a missing one is 0;
  - the ball always restarts heading right.

## Findings

| source | as written | input that shows it | evidently intended | confidence | as-written member | corrected member |
|---|---|---|---|---|---|---|
| old/server.py:74-77 | a new connection's slot is the number of registered connections plus one | connections 10 and 11 join, 10 leaves, 12 joins: 11 and 12 both hold slot 2 and nobody drives paddle 1 | a new connection takes the slot that is free | high, not executed | Sessions.SlotReusedAfterPlayerOneLeaves | Sessions.FreeSlotKeepsSlotsDistinct |
| old/server.py:59 | lines are split at the two characters backslash and `n` within each chunk separately | the text `a\nb` (backslash, n) received as chunks "a\\" and "nb" is one line that contains the delimiter | lines do not depend on where the stream is cut, as with the one-character "\n" of server.py | medium, not executed | LineFraming.EscapedNewlineDependsOnChunking | LineFraming.ChunkIndependence |
| old/client.py:78-82 | after a block fails to decode, the buffer is cut at `end + 1` a second time, with `end` counted in the buffer before the first cut at line 78 | one `recv` of `{x}{"k":1}` where `{x}` fails to decode: the second cut leaves `":1}`, so no state is shown, while the same text in two `recv`s shows 1 | drop only the failed block and keep scanning, as the comment at line 81 says | high, not executed | BraceScan.DoubleCutLosesNextBlock | BraceScan.ReceiveStreams |
