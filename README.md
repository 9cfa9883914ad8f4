# Parker Gemini GV6 servo controller driver, modelled in Dafny

The `ParkerGV6` driver talks to a single-axis servo controller over a serial line.
It sends plain ASCII mnemonics, each ended by a carriage return. Examples are
`GO`, `K`, `D1234` and `LSPOS100`. For a query it sends the mnemonic and reads
the reply back. Reading joins the received lines with `\n`. It then removes every
reply terminator `\r\n\n` that is followed by an optional prompt (`>` or `?`) and
a space. The driver takes a signed count from the reply, found right after the
label `TPE` (position) or `TPER` (position error). It can also split a status
report on the terminator.

The model has five modules:

- `Wrappers` holds `Option`, used for a reply that carries no count. During a
  move the controller sends no count; this is a normal "busy" answer, not an
  error.
- `Numerals` holds the decimal text of integers, as `str(int(n))` and `"%d"`
  produce it. It also reads `-?\d+` back into a number, as `int(...)` does on a
  regex match.
- `Text` holds `sep.join(parts)` and `s.split(sep)`.
- `Replies` holds reply handling. `StripPrompts` and `Read` model `read`:
  `re.sub` becomes a left-to-right scan without overlap. `StatusLines` models
  `status`. `FirstMatch` and `LabelledCount` model the look-behind search
  `(?<=TPE)-?\d+`. `PositionOf` and `PositionErrorOf` apply that search to the
  two labels.
- `Parker` holds the driver. The class `Connection` keeps an append-only list
  of every string written to the serial line. The class `ParkerGV6` owns one
  `Connection`. Each driver method is a Dafny method whose postcondition states
  exactly which strings were appended. A query takes the received reply lines as
  a parameter.

`reset()` (automate/instruments/parker.py:39-46) sends `RESET`, waits, and then
calls `self.setDefault()` (line 45). The class defines only `setDefaults`
(line 28), so as written the call fails with `AttributeError` and neither the
defaults nor `DRIVE1` are sent. The evident intent is `RESET`, then the default
configuration, then `enable()`. The model keeps both: the method as written and
the intended sequence. The Findings section records this.

## Model

| member | source | states |
|---|---|---|
| `Parker.ParkerGV6.Write` | automate/instruments/parker.py:185-189 | exactly one string, the command followed by `\r`, is appended to the connection; nothing else is sent |
| `Parker.ParkerGV6.constructor` | automate/instruments/parker.py:21-26 | opens the port at 9600 baud with a 500 ms timeout; the connection has then carried exactly the default configuration |
| `Parker.ParkerGV6.SetDefaults` | automate/instruments/parker.py:28-37 | appends exactly `ECHO0, LH0, MA1, MC0, AA1.0, A1.0, V3.0`, each with `\r`, in that order |
| `Parker.ParkerGV6.Reset` | automate/instruments/parker.py:39-46 | as written: appends only `RESET\r`, then fails with `AttributeError("setDefault")` |
| `Parker.ParkerGV6.ResetAsIntended` | automate/instruments/parker.py:39-46 | corrected: appends `RESET`, the seven default commands and `DRIVE1`, in that order |
| `Parker.ResetStopsEarly` | automate/instruments/parker.py:43-46 | the as-written reset sends only the first of the nine intended commands and never `DRIVE1\r` |
| `Parker.ParkerGV6.Enable` | automate/instruments/parker.py:48-50 | appends exactly `DRIVE1\r` |
| `Parker.ParkerGV6.Disable` | automate/instruments/parker.py:52-54 | appends exactly `DRIVE0\r` |
| `Parker.ParkerGV6.Ask` | automate/instruments/parker.py:191-195 | a query appends its command with `\r` and returns the normalised reply |
| `Parker.ParkerGV6.Status` | automate/instruments/parker.py:56-58 | appends `TASF\r`; the returned pieces re-join with `\r\n\n` to the normalised reply, and no piece contains `\r\n\n` |
| `Parker.ParkerGV6.IsMoving` | automate/instruments/parker.py:60-62 | appends `TPE\r`; true exactly when the reply holds no position count |
| `Parker.ParkerGV6.GetAngle` | automate/instruments/parker.py:64-73 | appends `TPE\r`; None exactly when the position is None, otherwise the count times 0.00045 |
| `Parker.ParkerGV6.GetAngleError` | automate/instruments/parker.py:75-83 | appends `TPER\r`; None exactly when the position error is None, otherwise the count times 0.00045 |
| `Parker.ParkerGV6.GetPosition` | automate/instruments/parker.py:91-99 | appends `TPE\r`; the result is the count found after `TPE` in the normalised reply |
| `Parker.ParkerGV6.GetPositionError` | automate/instruments/parker.py:101-110 | appends `TPER\r`; the result is the count found after `TPER` in the normalised reply |
| `Parker.ParkerGV6.SetPosition` | automate/instruments/parker.py:112-116 | appends exactly `D`, the decimal text of the count, and `\r` |
| `Parker.SetpointReadsBack` | automate/instruments/parker.py:112-116 | after the mnemonic, a transmitted setpoint parses back to the very integer sent |
| `Parker.ParkerGV6.Move` | automate/instruments/parker.py:118-120 | appends exactly `GO\r` |
| `Parker.ParkerGV6.Stop` | automate/instruments/parker.py:122-124 | appends exactly `S\r` |
| `Parker.ParkerGV6.Kill` | automate/instruments/parker.py:126-128 | appends exactly `K\r` |
| `Parker.ParkerGV6.SetAbsolutePosition` | automate/instruments/parker.py:130-135 | appends exactly `MA1\r` then `MC0\r` |
| `Parker.ParkerGV6.SetRelativePosition` | automate/instruments/parker.py:137-142 | appends exactly `MA0\r` then `MC0\r` |
| `Parker.ParkerGV6.SetHardwareLimits` | automate/instruments/parker.py:144-151 | appends exactly `LH1\r` when enabled and `LH0\r` otherwise; the argument defaults to false |
| `Parker.ParkerGV6.SetSoftwareLimits` | automate/instruments/parker.py:153-158 | appends exactly two commands, `LSPOS<p>\r` then `LSNEG<n>\r` |
| `Parker.SoftwareLimitsExample` | automate/instruments/parker.py:153-158 | limits 100 and -50 go out as `LSPOS100\r` then `LSNEG-50\r` |
| `Parker.ParkerGV6.SetEcho` | automate/instruments/parker.py:160-167 | appends exactly `ECHO1\r` when enabled and `ECHO0\r` otherwise; the argument defaults to false |
| `Parker.FramedAppend` | automate/instruments/parker.py:185-189 | framing commands one by one equals framing the whole sequence, so composite operations append their commands in order |
| `Numerals.NatDigits` | automate/instruments/parker.py:116 | the decimal text of a natural number is a non-empty run of digits, with a leading zero only for zero |
| `Numerals.NatDigitsValue` | automate/instruments/parker.py:116 | the digits of `n` denote `n` |
| `Numerals.Decimal` | automate/instruments/parker.py:116 | `str(n)` (and `"%d" % n`, lines 157-158) is non-empty, starts with `-` exactly for negative `n`, and every other character is a digit; `Numerals.DecimalRoundTrip` reads it back to `n` |
| `Numerals.DigitsValue` | automate/instruments/parker.py:99 | the value `int(...)` gives a digit run; on a run without a leading zero it is the inverse of `NatDigits` (the digits of the value are the run) |
| `Numerals.DigitRun` | automate/instruments/parker.py:95 | greedy `\d+`: the run taken is all digits, and the character after it is not a digit |
| `Numerals.LeadingNumber` | automate/instruments/parker.py:95-99 | the value of the greedy digit run at the front; when that run has no leading zero, the digits of the value are exactly the run |
| `Numerals.ParseSigned` | automate/instruments/parker.py:95-99 | `-?\d+` matches at the front exactly when a digit starts the text, or a minus sign followed by a digit does |
| `Numerals.NatDigitsReadBack` | automate/instruments/parker.py:95-99 | the digits of `m`, followed by a non-digit, start with a digit and are read back as `m` |
| `Numerals.DecimalRoundTrip` | automate/instruments/parker.py:116 | for every integer, its decimal text followed by a non-digit parses back to the integer |
| `Text.FirstOccurrence` | automate/instruments/parker.py:58 | the leftmost occurrence of the separator at or after a position, or none at all |
| `Text.Join` | automate/instruments/parker.py:195 | `sep.join(parts)`: the first part is a prefix of the result; `Text.SplitJoin` and `Text.SplitUnique` relate it to `Split` |
| `Text.Split` | automate/instruments/parker.py:58 | `s.split(sep)` gives at least one piece; `Text.SplitJoin`, `Text.SplitPiecesClean` and `Text.SplitUnique` state that the pieces re-join to `s`, hold no separator and are the only such list |
| `Text.SplitJoin` | automate/instruments/parker.py:58 | joining the pieces of a split with the separator gives back the text |
| `Text.SplitPiecesClean` | automate/instruments/parker.py:58 | no piece of a split contains the separator |
| `Text.SplitUnique` | automate/instruments/parker.py:58 | for a separator whose occurrences cannot overlap, the split is the only list of separator-free pieces that joins back to the text |
| `Replies.PromptLength` | automate/instruments/parker.py:195 | a match of the terminator, an optional `>` or `?` and a space at the front is 4 or 5 characters long, starts with `\r\n\n` and ends with the space |
| `Replies.StripPrompts` | automate/instruments/parker.py:195 | the output of `read` is never longer than the joined input |
| `Replies.Read` | automate/instruments/parker.py:191-195 | `read`: the received lines joined with `\n` and then scanned; the result is never longer than the joined text, and equals it when the joined text holds no `\r\n\n` |
| `Replies.StripPromptsIdentity` | automate/instruments/parker.py:195 | a text with no match anywhere passes through unchanged |
| `Replies.StripPromptsShrinks` | automate/instruments/parker.py:195 | a text with a match somewhere becomes strictly shorter |
| `Replies.StripPromptsUnchangedIff` | automate/instruments/parker.py:195 | `read` leaves its text unchanged if and only if the text has no match anywhere |
| `Replies.NoTerminatorUnchanged` | automate/instruments/parker.py:191-195 | joined text without `\r\n\n` passes through unchanged |
| `Replies.PromptLengthBeforeReturn` | automate/instruments/parker.py:195 | no match extends past a following carriage return |
| `Replies.StripPromptsAppend` | automate/instruments/parker.py:195 | normalisation splits at any carriage return: `StripPrompts(t + u)` equals `StripPrompts(t) + StripPrompts(u)` when `u` starts with `\r` |
| `Replies.TrailingPromptRemoved` | automate/instruments/parker.py:195 | a trailing terminator with a `> `, `? ` or bare space prompt is removed, and the text before it is normalised as it would be alone |
| `Replies.ReadOk` | automate/instruments/parker.py:191-195 | `read` turns `OK\r\n\n> ` into `OK` |
| `Replies.StripPromptsMayLeaveMatch` | automate/instruments/parker.py:195 | a single pass can leave a new match behind: `\r\r\n\n \n\n ` becomes `\r\n\n ` |
| `Replies.TerminatorUnbordered` | automate/instruments/parker.py:58 | two occurrences of `\r\n\n` can never overlap |
| `Replies.StatusLines` | automate/instruments/parker.py:56-58 | `status` cuts the reply at `\r\n\n`: at least one piece, the pieces re-join to the reply, and none holds a terminator |
| `Replies.StatusLinesRoundTrip` | automate/instruments/parker.py:56-58 | the status pieces re-join to the reply, none contains `\r\n\n`, and they are the only such list |
| `Replies.FirstMatch` | automate/instruments/parker.py:95 | `re.search`: the leftmost index where the look-behind label and `-?\d+` both match, or none |
| `Replies.LabelledCount` | automate/instruments/parker.py:95-99 | None exactly when no index matches; otherwise the value read at the leftmost matching index |
| `Replies.PositionOf` | automate/instruments/parker.py:95-99 | the `getPosition` search: None exactly when no index has `TPE` before it and `-?\d+` at it |
| `Replies.PositionErrorOf` | automate/instruments/parker.py:106-110 | the `getPositionError` search: None exactly when no index has `TPER` before it and `-?\d+` at it |
| `Replies.LabelledCountAfter` | automate/instruments/parker.py:95-99 | the first labelled number wins: when `pre` alone gives no count and `tail` starts with `-?\d+`, the count in `pre + label + tail` is the number at the front of `tail`; label hits in `pre` followed by a non-number are skipped |
| `Replies.LabelledCountOfDecimal` | automate/instruments/parker.py:95-99 | in `pre + label + decimal(n) + post`, when `pre` alone gives no count and no digit follows the number, the count found is `n` |
| `Replies.PositionOfReply` | automate/instruments/parker.py:91-99 | for every integer `n`, negative ones included, a reply `pre + "TPE" + decimal(n) + post` gives `n` when `pre` alone gives no position and no digit starts `post` |
| `Replies.PositionErrorOfReply` | automate/instruments/parker.py:101-110 | the same for `TPER` and the position error |
| `Replies.NoMatchAfterLongerLabel` | automate/instruments/parker.py:95 | a label followed by a character that cannot begin a number, then text without the label's first character, gives no count |
| `Replies.PositionErrorIsNotPosition` | automate/instruments/parker.py:95-110 | for every integer `n`, the reply `"TPER" + decimal(n)` has no position (`TPE` matches only before the `R`); reading its position error back is the business of `Replies.PositionErrorOfReply` |
| `Replies.BareLabelIsBusy` | automate/instruments/parker.py:106-108 | `TPER` with no digits after it gives None |

## Left out

- Serial transport: opening the port, byte-level reads and writes, timeouts and errors are left out. The base-class `readlines` is also left out. The model keeps only the port name, the baud rate (9600), the timeout (500 ms) and the strings written.
- `ask` belongs to the instrument base class, which is not part of this model. A query is modelled as `write(command)` followed by `read()`, and the received lines are a parameter.
- `sleep(5)` in `reset()` is a wall-clock wait and is left out.
- `Parker.ParkerGV6.Reset`: Python raises `AttributeError`; the model returns it as a value.
- `setAngle`, `setAcceleration`, `setAverageAcceleration` and `setVelocity` are left out. They need IEEE double arithmetic, truncation of a float, or Python's `str(float(x))` rendering. `SetDefaults` sends the literal strings `AA1.0`, `A1.0` and `V3.0`, which those setters produce for the arguments 1, 1 and 3.
- `Parker.ParkerGV6.GetAngle`: the model multiplies the count by 0.00045 as an exact rational, without IEEE double rounding.
- `Parker.ParkerGV6.GetAngleError`: the same as `GetAngle`.
- `Parker.ParkerGV6.SetPosition`: the model takes an integer; the truncation `int(counts)` of a float argument is left out.
- `Parker.ParkerGV6.SetSoftwareLimits`: the same; both limits are integers.
- Python's `\d` also matches non-ASCII Unicode digits. The model accepts only `0`-`9`.
- The physical effect of `GO`, `S`, `K` and the other commands on the motor is device behaviour and is left out.

## Findings

| source | as written | input that shows it | evidently intended | confidence | as-written member | corrected member |
|---|---|---|---|---|---|---|
| automate/instruments/parker.py:45 | `reset()` calls `self.setDefault()`, which the class does not define. The call raises `AttributeError` after `RESET` is sent, so neither the defaults nor `DRIVE1` are sent. | any call of `reset()` | send `RESET`, then the default configuration (`setDefaults`), then `DRIVE1` | high; not executed | `Parker.ParkerGV6.Reset` (with `Parker.ResetStopsEarly`) | `Parker.ParkerGV6.ResetAsIntended` |
