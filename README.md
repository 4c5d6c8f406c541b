# Poemem: the line engine, the blank quiz and verse segmentation

Poemem is a console program for learning poems by heart. This project models three parts of it.

- **The line engine.** A `Line` is one line of console output. It keeps two integers:
  - `Offset`, the cursor column relative to the start of the line;
  - `Length`, how far the line has been written; it shrinks back to `Offset` when an erase starts at the end of the line.

  `Write`, `Erase`, `Move`, `MoveToHead`, `MoveToTail` and `NewLine` keep `0 <= Offset <= Length`. A static `Line.Current` slot holds the only live line: `NewLine` installs a fresh line there, and every later call on the old line throws "expired". A `Span` is a fixed stretch of a line. It seeks back to its start, writes at most its width, and reads at most its width. `Read` is a key-driven editor with MinLength, MaxLength, AutoSubmit, AllowSpace and EraseChar. `AnsiiStyle` values are SGR escape parameters; the older copy has a `StringStyle` builder over a sorted set of codes.
- **The blank-fill layer.**
  - `WriteBlanks` writes a text with chosen words replaced by underscores and hands back one `Blank` (word and span) per word.
  - `QuizBlanks` reads an answer into each blank, compares it with the word ignoring case, rewrites the blank green or italic red, and counts the score.
  - `SelectAtRandom` picks one element from each consecutive chunk of a list.
  - `SkipAtRandom` drops one element.
  - `WriteTitle` writes a title padded with `=`.
- **Verse segmentation.** `Poem.ExtractVerses` cuts a poem's lines into verses at empty lines, one freshly allocated array per verse, no two verses sharing an array. The obsolete `VerseCount` counts them.

## How the model is built

- **The console** is the class `Lines.Terminal`. It holds:
  - a positive buffer width;
  - the cursor as one linear position, row × width + column;
  - a ghost map from positions to the character and style printed there;
  - the `Line.Current` slot.
- **Per-line state.** `Lines.Line` holds `Offset` and `Length`. `Lines.Span` holds its line, start and width.
- **Reference functions.**
  - Module `Cursor` states each line operation as a function on a value `Head`, holding offset, length, position and screen. Each returns an `Effect`: the new head plus `Pass`, or `Fail(fault)` for the exception thrown.
  - Module `Reading` states `Read` as one `Step` per key and `ReadLoop` over a key sequence. `Read` never consults `ReadOptions.AllowEscape`: Escape always ends a read, and the model follows that.
  - Module `Blanks` states `WriteBlanks`' writes as `BlankWrites` and `QuizBlanks` as `Quiz`.
  - Every method of `Line` and `Span`, and `WriteBlanks`, `QuizBlanks` and `WriteTitle`, is proved to leave exactly the state the matching function computes from the old state. The laws are proved about those functions.
- **Exceptions** are values of `Faults.Fault`: `Expired`, `Argument`, `OutOfRange`, `DivideByZero`. When the source throws halfway through a call, the state the call has already changed is kept. For example, `Erase` with a control fill character has already stepped back when the inner `Write` throws.
- **Keys.** Console input is a sequence of keys given as an argument. Methods that read hand back the keys they did not consume. A read that runs out of keys ends `Waiting`, and a quiz that does ends `Stalled`; both stand for the source still blocking in `ReadKey`.
- **Randomness.**
  - `SkipAtRandom` takes the drawn index as a parameter.
  - `SelectAtRandom` draws each index by a nondeterministic choice inside the chunk and returns the indices it chose.
- **Regular-expression selectors** are given as the list of matches, each an index and a value.
- **Poem lines** are an `array<string>`. A null line of the source is modelled as the empty string.
- **The two versions of the program.**
  - `Poemem/Line.cs` and `Line.cs` share their line logic. `Poemem/Common/Utility.cs` and `Utility.cs` share their blank logic. The model states each shared operation once, and the table cites both copies.
  - Only the older copy has `Span.Move` and `StringStyle`. `Span.Move` is the same call as `Span.Seek`.
  - The older copy styles a rewritten blank `32` and `31;3`; the newer one uses `Foreground(Green)` and `Italic + Foreground(Red)`. `Blanks.FeedbackCodes` proves both mean green, and italic red.

## Model
| member | source | states |
|---|---|---|
| Cursor.WriteLaw | Poemem/Line.cs:34-56 | Write passes exactly on a live line with a control-free text. A failed or empty write changes nothing. A passing write adds the text's length to Offset and to the cursor, and sets Length to max(Length, Offset). The text then appears in the given style from the old cursor on. The older copy at Line.cs:32-48 keeps the same contract. |
| Cursor.WriteConcat | Poemem/Line.cs:48-49 | Two consecutive writes leave the same head as one write of the concatenated text. |
| Cursor.MoveLaw | Poemem/Line.cs:87-108 | Move clamps its delta to [-Offset, Length-Offset], keeps Length and the screen, and shifts the cursor by exactly the clamped delta. An in-range delta is taken as is. MoveToHead (int.MaxValue) lands on Length and MoveToTail (int.MinValue) on 0. The older copy at Line.cs:77-98 keeps the same contract. |
| Cursor.EraseLaw | Poemem/Line.cs:68-85 | Erase steps back k = max(0, min(n, Offset)) characters. k = 0 changes nothing. A control fill throws after the step back. Otherwise the k cells are overprinted with the fill, and Length shrinks to the new Offset only when the erase started at the frontier. The older copy at Line.cs:58-75 keeps the same contract. |
| Cursor.EraseUndoesWrite | Poemem/Line.cs:68-85 | Erasing, at the frontier, exactly what was just written restores Offset, Length and the cursor, and leaves only the fill character on the screen where the text was. |
| Cursor.ExpiredLineIsInert | Poemem/Line.cs:14-18 | On a line that is no longer Line.Current, Write, Move, Erase and NewLine all throw Expired and change nothing. The older copy at Line.cs:12-16 keeps the same contract. |
| Cursor.NewLineLaw | Poemem/Line.cs:110-120 | NewLine first moves to the head, then throws on n < 1. Otherwise the new line starts at Offset = Length = 0, n line breaks below, strictly after the old head. The older copy at Line.cs:100-110 keeps the same contract. |
| Cursor.SeekIdempotent | Poemem/Line.cs:224-229 | Seeking to a start on the written line passes, lands on that start, keeps Length and the screen, and a second seek is then a no-op. The older copy at Line.cs:213-218 keeps the same contract. |
| Cursor.SpanWriteLaw | Poemem/Line.cs:231-235 | A span write on a live line seeks to the span start and writes min(\|s\|, width) characters of s from there; the cursor ends just after them. The older copy at Line.cs:220-224 keeps the same contract. |
| Cursor.SpanWriteShows | Poemem/Line.cs:231-235 | After a span write, the first min(\|s\|, width) cells from the span start show s in the given style. |
| Cursor.TruncatedPrefix | Poemem/Line.cs:233 | The cut text is the prefix of length min(\|s\|, width), and it has no control character when s has none. |
| Lines.Line.EnsureCurrent | Poemem/Line.cs:14-18 | Passes exactly when the line is the terminal's current line; otherwise fails Expired. |
| Lines.Line.Write | Poemem/Line.cs:34-56 | The new Offset, Length, cursor and screen, and the outcome, are those of WriteEffect on the old state. Offset <= Length is kept. |
| Lines.Line.Erase | Poemem/Line.cs:68-85 | New state and outcome are EraseEffect of the old state. |
| Lines.Line.Move | Poemem/Line.cs:96-108 | New state and outcome are MoveEffect of the old state. |
| Lines.Line.MoveToHead | Poemem/Line.cs:87 | Move by int.MaxValue; on a live line whose Length - Offset fits an int it ends with Offset == Length. |
| Lines.Line.MoveToTail | Poemem/Line.cs:89 | Move by int.MinValue; on a live line whose Offset fits an int it ends with Offset == 0. |
| Lines.Line.NewLine | Poemem/Line.cs:110-120 | On failure Line.Current is unchanged and the head is NewLineEffect's. On success a fresh line becomes Line.Current with NewLineEffect's head, and this line is no longer current. |
| Lines.Line.Read | Poemem/Line.cs:129-188 | Outcome, unread keys and new state are those of ReadLoop from an empty buffer. The older copy at Line.cs:118-177 keeps the same contract. |
| Lines.Line.Span | Poemem/Line.cs:196-201 | The span records start = the old Offset and width = \|s\|, and s is written as by Write. |
| Lines.Span.Seek | Poemem/Line.cs:224-229 | New state and outcome are Sought: Move only when the offsets differ. The older copy at Line.cs:213-218 keeps the same contract. |
| Lines.Span.Write | Poemem/Line.cs:231-235 | New state and outcome are SpanWriteEffect. |
| Lines.Span.Read | Poemem/Line.cs:244-247 | Outcome, unread keys and state are SpanRead: seek, then read with MaxLength = min(width, MaxLength). The older copy at Line.cs:232-235 keeps the same contract. |
| Reading.StepKeepsAdmissible | Poemem/Line.cs:136-185 | One key keeps the buffer typed-only and within MaxLength. |
| Reading.ReadSubmitsAcceptable | Poemem/Line.cs:136-185 | Whatever Read submits was typed, fits MaxLength, and reached MinLength or filled the buffer under AutoSubmit. |
| Reading.ReadBounded | Poemem/Line.cs:136-185 | A fresh read never submits more than MaxLength characters. The older copy at Line.cs:127-171 keeps the same contract. |
| Reading.TypeOne | Poemem/Line.cs:163-177 | A typeable character below MaxLength is written to the line and appended to the buffer. |
| Reading.TypingWrites | Poemem/Line.cs:163-185 | Typing a word below MaxLength writes it and appends it, then reading goes on with the rest of the keys. |
| Reading.AutoSubmitOnFull | Poemem/Line.cs:173-182 | Under AutoSubmit, typing the characters that fill the buffer submits it at once, leaving the later keys unread. |
| Reading.EnterSubmits | Poemem/Line.cs:141-145 | Typing a word below MaxLength and then Enter submits the buffer with the word appended, once MinLength is met, leaving the later keys unread. |
| Reading.SpanReadEntered | Poemem/Line.cs:244-247 | A word shorter than the span, followed by Enter, is submitted exactly from the span start. |
| Reading.TypeThenBackspace | Poemem/Line.cs:147-177 | At the frontier, a typed character followed by Backspace restores the buffer, Offset, Length and cursor. |
| Reading.CtrlBackspaceClears | Poemem/Line.cs:147-154 | Ctrl+Backspace empties the buffer. It steps the cursor back over as much of the buffer as lies before it, overprints that with EraseChar, and shrinks Length to the cursor when the erase started at the frontier. |
| Reading.EscapeAndIgnoredKeys | Poemem/Line.cs:136-185 | Escape ends the read with no text. Ctrl keys, control characters and whitespace without AllowSpace are ignored. Enter/Tab submits exactly when the buffer is at least MinLength. Backspace on an empty buffer does nothing. The older copy at Line.cs:127-171 keeps the same contract. |
| Reading.ExpiredReadIsInert | Poemem/Line.cs:14-18 | A read on an expired line never moves the cursor or changes the screen; only Expired is raised. |
| Reading.SpanReadBounded | Poemem/Line.cs:244-247 | A span read submits at most the span's width of characters. |
| Reading.SpanReadTyped | Poemem/Line.cs:244-247 | Under AutoSubmit, typing a word that fills the span submits exactly that word from the span start, leaving the later keys. |
| Styles.PlusCodes | Poemem/Line.cs:292-295 | operator + gives the escape with both parameter texts joined by ';', whose codes are the left's followed by the right's. |
| Styles.SgrCodes | Poemem/Line.cs:292-295 | Codes joined by ';', as operator+ joins two styles' codes, parse back to exactly that non-empty list. The older Apply joins its arguments the same way with string.Join at Line.cs:281. |
| Styles.NamedStyleCodes | Poemem/Line.cs:278-286 | Clear..Strikethrough are the SGR codes 0..8. |
| Styles.ForegroundCodes | Poemem/Line.cs:289 | Foreground(c) has the single code 30 + c, in 30..39. |
| Styles.BackgroundIsForeground | Poemem/Line.cs:287 | As written, Background(c) has the same code as Foreground(c). |
| Styles.BackgroundCorrectedCodes | Poemem/Line.cs:287 | A background of 40 + c lies in 40..49 and never equals any foreground style. |
| LegacyStyles.Insert | Line.cs:251 | Adding to the sorted set keeps it strictly increasing and adds exactly the new element. |
| LegacyStyles.StringStyle.Mode | Line.cs:255-265 | Mode, Bold, Italic and Underline add the mode's code to the set. |
| LegacyStyles.StringStyle.Foreground | Line.cs:267-271 | Adds 30 + colour. |
| LegacyStyles.StringStyle.Background | Line.cs:273-277 | Adds 40 + colour. |
| LegacyStyles.StringStyle.Apply | Line.cs:279-284 | ESC[ + the codes in ascending order joined by ';' + m + s + ESC[0m. That prefix denotes exactly the collected codes. |
| Blanks.FeedbackCodes | Poemem/Common/Utility.cs:44-52 | The newer and older rewrite styles both mean green for right and italic red for wrong. |
| Blanks.BlankedChars | Poemem/Common/Utility.cs:18-25 | For ordered matches, the blanked text has the length of the text, has '_' over each match and the text everywhere else. |
| Blanks.BlankWritesLaw | Poemem/Common/Utility.cs:18-25 | WriteBlanks completes exactly when the line is current, the matches are ascending, non-overlapping and inside the text, and the blanked text has no control character. It then has written the blanked text; otherwise a Substring or Write fault is raised. The older copy at Utility.cs:18-25 keeps the same contract. |
| Blanks.WriteBlanks | Poemem/Common/Utility.cs:12-28 | The state and outcome are those of BlankWrites. On success there is one blank per match, in order, with the match's word, a span on this line starting at the old Offset plus the match index, and the match's length. The older copy at Utility.cs:12-28 keeps the same contract. |
| Blanks.QuizTally | Poemem/Common/Utility.cs:32-36 | A scored quiz has Total = the number of blanks and 0 <= Score - start <= Total. |
| Blanks.AskTyped | Poemem/Common/Utility.cs:37-52 | An answer no wider than its blank is submitted: at once when it fills the blank, or by Enter when it is shorter. The span is then rewritten with the answer in the right style when it equals the word ignoring case, and with the word in the wrong style otherwise. The older copy at Utility.cs:44-52 rewrites the same way: a mismatch shows the expected word, not the answer. |
| Blanks.QuizTyped | Poemem/Common/Utility.cs:30-57 | Answering every blank with a typed answer no wider than it (Enter after a shorter one) ends with Scored(Score = the answers equal to their word ignoring case, Total = the number of blanks). The older copy at Utility.cs:30-57 keeps the same contract. |
| Blanks.QuizEscape | Poemem/Common/Utility.cs:37-42 | Escape on a blank ends the quiz without a score, on a fresh 0/0 line. The older copy at Utility.cs:37-42 keeps the same contract. |
| Blanks.QuizBlanks | Poemem/Common/Utility.cs:30-57 | Outcome, unread keys and final state are those of Quiz. The quizzed line ends with the Offset and Length Quiz gives it. After Scored or Abandoned, a fresh current line holds the final head. After Stalled or Crashed, the current line is the one it was. |
| Blanks.QuizLeavesLine | Poemem/Common/Utility.cs:37-56 | A quiz that stops on its line leaves that line in use. One that scores or is abandoned leaves the quizzed line at its end, below an empty 0/0 line over the same screen. Both endings call NewLine, at Poemem/Common/Utility.cs:40 and :55. |
| Blanks.FinishLeavesLine | Poemem/Line.cs:110-120 | NewLine keeps the quizzed line's Length and moves its Offset to that Length, then starts an empty line. If it throws, nothing changes. |
| Utility.SkipAtRandomLaw | Poemem/Common/Utility.cs:77-81 | The result is the list without the element at the drawn index, in order: one element shorter, the same multiset minus that element. An empty list stays empty. The older copy at Utility.cs:77-81 keeps the same contract. |
| Utility.WithoutIndexLaw | Poemem/Common/Utility.cs:80 | The indexed Where drops exactly the element at the skipped index, or nothing if the index is outside. |
| Utility.SelectAtRandom | Poemem/Common/Utility.cs:68-75 | Fails exactly as the chunk plan does (divide by zero). Otherwise it yields one element per chunk [i, min(i + size, n)) with size = ceil(n / min(count, n)), each the list element at the picked index. The older copy at Utility.cs:68-75 keeps the same contract. |
| Utility.StartsShape | Poemem/Common/Utility.cs:73 | The chunks follow each other: the first starts at 0 and each starts size after the previous, until n is covered. |
| Utility.StartsCover | Poemem/Common/Utility.cs:73 | Every index of the list lies in exactly the chunk the lemma names. |
| Utility.PicksIncreasing | Poemem/Common/Utility.cs:73-74 | One pick per chunk means strictly increasing indices. |
| Utility.ChunkCount | Poemem/Common/Utility.cs:71-73 | There is at least one chunk and never more than min(count, n). |
| Utility.FewerThanCount | Poemem/Common/Utility.cs:71-73 | The count is a bound, not a promise: five elements asked for four give three chunks of size two. |
| Utility.EmptyListDivides | Poemem/Common/Utility.cs:71-72 | As written, an empty list divides by zero for every count. |
| Utility.GuardedPlan | Poemem/Common/Utility.cs:71-72 | The guarded plan never fails, agrees with the source whenever min(count, n) > 0, and has no chunks otherwise. |
| Utility.SelectAtRandomGuarded | Poemem/Common/Utility.cs:68-75 | Always succeeds; one element per chunk of the guarded plan, nothing for an empty list. |
| Utility.PadLeft | Poemem/Common/Utility.cs:63 | string.PadLeft throws exactly on a negative width; otherwise it pads on the left with c to max(width, \|s\|). |
| Utility.PadRight | Poemem/Common/Utility.cs:64 | string.PadRight throws exactly on a negative width; otherwise it pads on the right with c to max(width, \|s\|). |
| Utility.TitleLaw | Poemem/Common/Utility.cs:61-64 | The title text throws OutOfRange exactly when totalLength <= \|title\|. Otherwise it is ' ' + title + ' ' with '=' on both sides, max(totalLength, \|title\| + 2) long. The older copy at Utility.cs:61-64 keeps the same contract. |
| Utility.TitleNotCentred | Poemem/Common/Utility.cs:61-64 | "Hi" in 20 gives "==== Hi ============": the title is not centred. |
| Utility.CenteredTitleLaw | Poemem/Common/Utility.cs:61-64 | The centred title is exactly totalLength long, with half the padding, rounded down, on the left and the rest on the right. |
| Utility.WriteTitle | Poemem/Common/Utility.cs:59-66 | A padding fault comes out before anything is written. Otherwise the line's new state and outcome are those of writing the padded title. |
| Poems.FindIndex | Poem.cs:41 | Array.FindIndex yields -1 exactly when no empty line follows start; otherwise it yields the first empty line at or after start. |
| Poems.SplitCount | Poem.cs:36 | The number of verses is the number of empty lines plus one. |
| Poems.SplitNoBlank | Poem.cs:39-46 | No verse contains an empty line. |
| Poems.SplitJoin | Poem.cs:32-49 | Joining the verses with one empty line between them gives the lines back. |
| Poems.JoinSplit | Poem.cs:32-49 | Verses without empty lines are recovered from their join. |
| Poems.SplitLengths | Poem.cs:41-44 | The verse lengths add up to the number of lines minus the empty ones. |
| Poems.VerseAt | Poem.cs:41-45 | One loop round: the verse from start runs to the next empty line, or to the end when there is none (end < 0). |
| Poems.Poem.VerseCount | Poem.cs:51-52 | The obsolete VerseCount equals the number of verses. |
| Poems.Poem.ExtractVerses | Poem.cs:32-49 | A fresh array with one freshly allocated array per verse, no two of them the same array, each holding exactly that verse's lines. |

## Left out
- The "cursor did not advance" wrap compensation in Write (Poemem/Line.cs:58-63): it works around a console quirk. Writing is modelled as always advancing the cursor.
- Cursor-visibility toggling and the raw escape bytes sent to the console: output is a ghost map from positions to a character and its style.
- Debug.WriteLine logging in EnsureCurrent: it has no effect on state.
- Line.Style(int[]) in the older copy: it only emits an escape to the console. The older QuizBlanks' Style(32) / Style(31, 3) calls are modelled as the styles the span is written in.
- Console bounds, scrolling and the real row/column pair: the cursor is one unbounded linear position.
- Regular-expression selectors, ToTitleCase and Parsing.ParseRange: these are foreign .NET regex and Unicode behaviour. Selectors are given as match lists.
- Random.Shared: the drawn values are parameters or nondeterministic choices.
- PoemService, both Program.cs files and VersusCommand: HTTP, JSON, files, the command line and sockets.
- ScoreResult.ToString: it formats a floating-point percentage.
- The quiz drivers (BlankQuiz, WordQuiz, InitialQuiz, LineQuiz): they only orchestrate the operations modelled here.
- The Lazy<> wrapper around Verses, and the obsolete EnumerateVerses overloads in Poem.cs.
- Exceptions.cs, the Color/RGB style overloads (they throw NotImplementedException), and the Write(object), Read(out) and Span(out) convenience overloads.
- Blanks.QuizTyped: covers answers typed straight through, each submitted by filling its blank or by Enter. Answers edited with Backspace, submitted with Tab, or interleaved with ignored keys are not covered. For every key sequence, Blanks.QuizTally bounds the score and fixes the total.
- QuizBlanks requires every blank's span to lie on the line it is called on, as WriteBlanks builds them. Spans on other lines are not modelled.
- Utility.SelectAtRandom: requires count >= 0 (every caller passes 1, 2 or 4). A negative count gives a negative chunk size in the source, which then throws or never ends.
- Lengths, offsets, Substring truncation and read keys count characters (Unicode scalar values), not UTF-16 code units as the source does (Offset += s.Length at Poemem/Line.cs:48, the span length at :198, the truncation at :233, the builder length at :143-179, KeyChar at :167-176). Text outside the Basic Multilingual Plane is not modelled: there an emoji advances the source's offset by 2, a span write can split a surrogate pair, and a surrogate pair arrives as two keys.
- Integers are unbounded: 32-bit overflow of Offset, Length or the cursor is not modelled. int.MaxValue and int.MinValue are kept as the literal deltas of MoveToHead and MoveToTail.
- Text.EqualsIgnoreCase: the source's string.Compare(a, b, ignoreCase: true) (Poemem/Common/Utility.cs:44) is a culture-sensitive, linguistic comparison. The model compares code point by code point after folding ASCII and Latin-1 letters, so strings of different lengths never match. Ignorable characters such as the soft hyphen U+00AD, canonically equivalent sequences such as a precomposed and a decomposed accent, and culture-specific case rules beyond those letters are not modelled.
- Null poem lines are modelled as empty strings; string.IsNullOrEmpty becomes a test for the empty string.

## Findings
| source | as written | input that shows it | evidently intended | confidence | as-written member | corrected member |
|---|---|---|---|---|---|---|
| Poemem/Line.cs:287 | AnsiiStyle.Background(c) uses 30 + c, the foreground code | Background(Red) gives the same escape as Foreground(Red) | 40 + c, as the older StringStyle.Background does | high, not executed | Styles.BackgroundIsForeground | Styles.BackgroundCorrectedCodes |
| Poemem/Common/Utility.cs:71-72 | count = min(count, list.Count) becomes 0 for an empty list, then divides by it | SelectAtRandom of an empty list, for any count, e.g. a text line with no word longer than three letters in the blank quiz | select nothing from an empty list | high, not executed | Utility.EmptyListDivides | Utility.SelectAtRandomGuarded |
| Poemem/Common/Utility.cs:61-64 | PadLeft is given half the free room as its total width, so the left padding is that half minus the padded title's length and the rest goes right | WriteTitle("Hi", 20) writes "==== Hi ============" | a title centred in totalLength | medium, not executed | Utility.TitleNotCentred | Utility.CenteredTitleLaw |
