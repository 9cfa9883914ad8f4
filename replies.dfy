/** What the GV6 driver does with the text the controller sends back:
    normalising the framing (`read`), splitting a status report (`status`)
    and finding a labelled signed count (`getPosition`, `getPositionError`). */
module Replies {
  import opened Wrappers
  import opened Numerals
  import opened Text

  /** The controller ends every reply with these three characters. */
  const Terminator: string := "\r\n\n"

  // ---------------------------------------------------------------------
  // read(): "\n".join(lines) then re.sub(r'\r\n\n(>|\?)? ', '', ...)
  // ---------------------------------------------------------------------

  /** Length of the match of `\r\n\n(>|\?)? ` at the front of `s`, or 0 when
      there is none.  The optional prompt is tried first (greedy) and dropped
      when no space follows it. */
  function PromptLength(s: string): (k: nat)
    ensures k == 0 || k == 4 || k == 5
    ensures k <= |s|
    ensures k > 0 ==> s[..3] == Terminator && s[k - 1] == ' '
  {
    if |s| >= 5 && s[..3] == Terminator && (s[3] == '>' || s[3] == '?') && s[4] == ' ' then 5
    else if |s| >= 4 && s[..3] == Terminator && s[3] == ' ' then 4
    else 0
  }

  /** A prompt match starts at index `i` of `s`. */
  predicate PromptAt(s: string, i: nat) {
    i <= |s| && PromptLength(s[i..]) > 0
  }

  /** `re.sub` with an empty replacement: scan left to right, drop each
      match, continue after it, keep every character not inside a match. */
  function StripPrompts(s: string): (r: string)
    ensures |r| <= |s|
    decreases |s|
  {
    if s == [] then []
    else
      var k := PromptLength(s);
      if k > 0 then StripPrompts(s[k..]) else [s[0]] + StripPrompts(s[1..])
  }

  /** The driver's `read`: the received lines joined with "\n", prompts and
      terminators removed. */
  function Read(lines: seq<string>): (text: string)
    ensures |text| <= |Join(lines, "\n")|
    ensures !Contains(Join(lines, "\n"), Terminator) ==> text == Join(lines, "\n")
  {
    var joined := Join(lines, "\n");
    if !Contains(joined, Terminator) then
      NoTerminatorUnchanged(joined);
      StripPrompts(joined)
    else
      StripPrompts(joined)
  }

  /** A text with no prompt match anywhere passes through unchanged. */
  lemma {:induction false} StripPromptsIdentity(s: string)
    requires forall i: nat :: i <= |s| ==> !PromptAt(s, i)
    ensures StripPrompts(s) == s
    decreases |s|
  {
    if s != [] {
      assert !PromptAt(s, 0) && s[0..] == s;
      forall i: nat | i <= |s[1..]| ensures !PromptAt(s[1..], i) {
        assert s[1..][i..] == s[1 + i..];
        assert !PromptAt(s, 1 + i);
      }
      StripPromptsIdentity(s[1..]);
    }
  }

  /** A text with a prompt match somewhere gets strictly shorter. */
  lemma {:induction false} StripPromptsShrinks(s: string, i: nat)
    requires PromptAt(s, i)
    ensures |StripPrompts(s)| < |s|
    decreases |s|
  {
    if PromptLength(s) == 0 {
      assert i > 0 by { assert s[0..] == s; }
      assert s[1..][i - 1..] == s[i..];
      StripPromptsShrinks(s[1..], i - 1);
    }
  }

  /** `read` leaves a text unchanged exactly when it holds no terminator
      followed by an optional prompt and a space. */
  lemma StripPromptsUnchangedIff(s: string)
    ensures StripPrompts(s) == s <==> forall i: nat :: i <= |s| ==> !PromptAt(s, i)
  {
    if forall i: nat :: i <= |s| ==> !PromptAt(s, i) {
      StripPromptsIdentity(s);
    } else {
      var i: nat :| i <= |s| && PromptAt(s, i);
      StripPromptsShrinks(s, i);
    }
  }

  /** In particular a text without the terminator passes through unchanged. */
  lemma NoTerminatorUnchanged(s: string)
    requires !Contains(s, Terminator)
    ensures StripPrompts(s) == s
  {
    forall i: nat | i <= |s| ensures !PromptAt(s, i) {
      if PromptAt(s, i) {
        assert s[i..][..3] == s[i..i + 3];
        assert Occurs(s, Terminator, i);
      }
    }
    StripPromptsIdentity(s);
  }

  /** A match never reaches across a carriage return: the front of `t + u`
      matches as `t` alone does, when `u` starts with "\r". */
  lemma PromptLengthBeforeReturn(t: string, u: string)
    requires t != [] && u != [] && u[0] == '\r'
    ensures PromptLength(t + u) == PromptLength(t)
  {
    var s := t + u;
    if |t| >= 5 {
      assert s[..5] == t[..5];
    } else if |t| == 4 {
      assert s[..4] == t;
      assert s[4] == '\r';
    } else if |t| == 3 {
      assert s[..3] == t && s[3] == '\r';
    } else if |s| >= 3 {
      assert s[..3] != Terminator by {
        assert s[|t|] == '\r' && Terminator[|t|] != '\r';
      }
    }
  }

  /** Normalisation works piece by piece at every carriage return that
      starts a piece: no match straddles the boundary. */
  lemma {:induction false} StripPromptsAppend(t: string, u: string)
    requires u == [] || u[0] == '\r'
    ensures StripPrompts(t + u) == StripPrompts(t) + StripPrompts(u)
    decreases |t|
  {
    if u == [] {
      assert t + u == t;
    } else if t == [] {
      assert t + u == u;
    } else {
      var s := t + u;
      PromptLengthBeforeReturn(t, u);
      var k := PromptLength(t);
      StripPromptsStep(s);
      StripPromptsStep(t);
      if k > 0 {
        DropFromAppend(t, u, k);
        StripPromptsAppend(t[k..], u);
      } else {
        DropFromAppend(t, u, 1);
        StripPromptsAppend(t[1..], u);
        KeepFirst(t[0], StripPrompts(t[1..]), StripPrompts(u));
      }
    }
  }

  /** One step of the scan on a non-empty text. */
  lemma StripPromptsStep(s: string)
    requires s != []
    ensures PromptLength(s) > 0 ==> StripPrompts(s) == StripPrompts(s[PromptLength(s)..])
    ensures PromptLength(s) == 0 ==> StripPrompts(s) == [s[0]] + StripPrompts(s[1..])
  {
  }

  // A slicing step, kept as a lemma only to keep the proof above cheap.
  lemma DropFromAppend(t: string, u: string, k: nat)
    requires k <= |t|
    ensures (t + u)[k..] == t[k..] + u
  {
  }

  // A regrouping step, kept as a lemma only to keep the proof above cheap.
  lemma KeepFirst(c: char, a: string, b: string)
    ensures [c] + (a + b) == ([c] + a) + b
  {
  }

  /** A trailing terminator with a ready prompt, an error prompt or no prompt
      is removed and nothing else changes. */
  lemma TrailingPromptRemoved(t: string, prompt: string)
    requires prompt == "> " || prompt == "? " || prompt == " "
    ensures StripPrompts(t + Terminator + prompt) == StripPrompts(t)
  {
    var u := Terminator + prompt;
    assert StripPrompts(u) == [] by {
      assert PromptLength(u) == |u|;
      assert u[|u|..] == [];
    }
    assert t + Terminator + prompt == t + u;
    StripPromptsAppend(t, u);
  }

  /** `read` turns the reply "OK\r\n\n> " into "OK". */
  lemma ReadOk()
    ensures Read(["OK\r\n\n> "]) == "OK"
  {
    assert Join(["OK\r\n\n> "], "\n") == "OK" + Terminator + "> ";
    TrailingPromptRemoved("OK", "> ");
    NoTerminatorUnchanged("OK");
  }

  /** One pass does not leave the text free of the pattern: removing a match
      can bring a carriage return next to a new terminator. */
  lemma StripPromptsMayLeaveMatch()
    ensures StripPrompts("\r\r\n\n \n\n ") == "\r\n\n "
    ensures PromptAt("\r\n\n ", 0)
  {
    var s := "\r\r\n\n \n\n ";
    assert PromptLength(s) == 0;
    assert s[1..] == "\r\n\n \n\n ";
    assert PromptLength(s[1..]) == 4;
    assert s[1..][4..] == "\n\n ";
    assert StripPrompts("\n\n ") == "\n\n " by {
      assert "\n\n "[1..] == "\n " && "\n "[1..] == " " && " "[1..] == [];
    }
  }

  // ---------------------------------------------------------------------
  // status(): reply.split("\r\n\n")
  // ---------------------------------------------------------------------

  /** `status`: the reply cut at each terminator.  The pieces join back to
      the reply and none holds a terminator. */
  function StatusLines(reply: string): (lines: seq<string>)
    ensures |lines| >= 1 && Join(lines, Terminator) == reply
    ensures forall p :: p in lines ==> !Contains(p, Terminator)
  {
    SplitJoin(reply, Terminator);
    SplitPiecesClean(reply, Terminator);
    Split(reply, Terminator)
  }

  lemma TerminatorUnbordered()
    ensures Unbordered(Terminator)
  {
    forall d | 0 < d < |Terminator| ensures Terminator[d..] != Terminator[..|Terminator| - d] {
      assert Terminator[d..][0] == '\n';
    }
  }

  /** The status lines, joined with the terminator, give back the reply; no
      line holds a terminator; and they are the only such list. */
  lemma StatusLinesRoundTrip(reply: string, lines: seq<string>)
    ensures Join(StatusLines(reply), Terminator) == reply
    ensures forall p :: p in StatusLines(reply) ==> !Contains(p, Terminator)
    ensures |lines| >= 1 && Join(lines, Terminator) == reply &&
            (forall p :: p in lines ==> !Contains(p, Terminator))
            ==> lines == StatusLines(reply)
  {
    if |lines| >= 1 && Join(lines, Terminator) == reply &&
       (forall p :: p in lines ==> !Contains(p, Terminator)) {
      TerminatorUnbordered();
      SplitUnique(lines, Terminator);
    }
  }

  // ---------------------------------------------------------------------
  // getPosition()/getPositionError(): re.search(r'(?<=LABEL)-?\d+', reply)
  // ---------------------------------------------------------------------

  /** The look-behind `(?<=tag)` holds at index `i`. */
  predicate LabelBefore(s: string, tag: string, i: nat) {
    |tag| <= i <= |s| && s[i - |tag|..i] == tag
  }

  /** The whole pattern matches at index `i`. */
  predicate MatchAt(s: string, tag: string, i: nat) {
    LabelBefore(s, tag, i) && ParseSigned(s[i..]).Some?
  }

  /** `re.search`: the leftmost index at or after `from` where the pattern
      matches. */
  function FirstMatch(s: string, tag: string, from: nat): (r: Option<nat>)
    ensures r.Some? ==> from <= r.value <= |s| && MatchAt(s, tag, r.value)
    ensures r.Some? ==> forall j: nat :: from <= j < r.value ==> !MatchAt(s, tag, j)
    ensures r.None? ==> forall j: nat :: from <= j ==> !MatchAt(s, tag, j)
    decreases |s| + 1 - from
  {
    if from > |s| then None
    else if MatchAt(s, tag, from) then Some(from)
    else FirstMatch(s, tag, from + 1)
  }

  /** The signed count right after the first `tag` that is followed by
      `-?\d+`, or None when there is no such place. */
  function LabelledCount(tag: string, s: string): (r: Option<int>)
    ensures r.None? <==> forall j: nat :: !MatchAt(s, tag, j)
    ensures r.Some? ==> exists i: nat :: i <= |s| && MatchAt(s, tag, i) &&
                                        (forall j: nat :: j < i ==> !MatchAt(s, tag, j)) &&
                                        r == ParseSigned(s[i..])
  {
    match FirstMatch(s, tag, 0)
    case None => None
    case Some(i) => ParseSigned(s[i..])
  }

  /** `getPosition` on a normalised reply. */
  function PositionOf(reply: string): (position: Option<int>)
    ensures position.None? <==> forall j: nat :: !MatchAt(reply, "TPE", j)
  {
    LabelledCount("TPE", reply)
  }

  /** `getPositionError` on a normalised reply. */
  function PositionErrorOf(reply: string): (positionError: Option<int>)
    ensures positionError.None? <==> forall j: nat :: !MatchAt(reply, "TPER", j)
  {
    LabelledCount("TPER", reply)
  }

  /** No character of `tag` can start or continue `-?\d+`. */
  predicate NotNumeric(tag: string) {
    forall m :: 0 <= m < |tag| ==> !IsDigit(tag[m]) && tag[m] != '-'
  }

  /** Text that starts with a character that cannot begin a number does not
      make a number appear in front of it. */
  lemma ParseExtends(a: string, b: string)
    requires b != [] && !IsDigit(b[0]) && b[0] != '-'
    ensures ParseSigned(a + b).Some? ==> ParseSigned(a).Some?
  {
    var s := a + b;
    if a == [] {
      assert s[0] == b[0];
    } else if |a| == 1 {
      assert s[0] == a[0] && s[1] == b[0];
    } else {
      assert s[0] == a[0] && s[1] == a[1];
    }
  }

  /** A match in `pre + rest` at or before the end of `pre` is a match in
      `pre` already, when `rest` cannot begin a number. */
  lemma NoMatchCarriedOver(pre: string, rest: string, tag: string, j: nat)
    requires rest != [] && !IsDigit(rest[0]) && rest[0] != '-'
    requires j <= |pre| && !MatchAt(pre, tag, j)
    ensures !MatchAt(pre + rest, tag, j)
  {
    var s := pre + rest;
    assert s[j..] == pre[j..] + rest;
    ParseExtends(pre[j..], rest);
    if |tag| <= j {
      assert s[j - |tag|..j] == pre[j - |tag|..j];
    }
  }

  /** Inside the label itself no number starts. */
  lemma NoMatchInsideLabel(pre: string, rest: string, tag: string, j: nat)
    requires NotNumeric(tag) && |tag| <= |rest| && rest[..|tag|] == tag
    requires |pre| < j < |pre| + |tag|
    ensures !MatchAt(pre + rest, tag, j)
  {
    var s := pre + rest;
    assert s[j] == rest[..|tag|][j - |pre|];
    assert s[j..][0] == s[j];
  }

  /** The first labelled number wins: when `pre` alone yields no count and
      `tail` starts with a number, the count found in `pre + tag + tail` is
      that number.  Labels in `pre` followed by something other than a
      number are skipped. */
  lemma {:induction false} LabelledCountAfter(pre: string, tag: string, tail: string)
    requires tag != [] && NotNumeric(tag)
    requires LabelledCount(tag, pre) == None
    requires ParseSigned(tail).Some?
    ensures LabelledCount(tag, pre + tag + tail) == ParseSigned(tail)
  {
    var rest := tag + tail;
    var s := pre + rest;
    var at := |pre| + |tag|;
    assert rest[..|tag|] == tag;
    NoMatchBeforeNumber(pre, rest, tag);
    assert s[at..] == tail;
    assert s[at - |tag|..at] == tag;
    LeftmostMatch(s, tag, at);
    assert s == pre + tag + tail;
  }

  /** In particular the decimal text of `n`, followed by anything that does
      not continue it, is read back as `n`. */
  lemma LabelledCountOfDecimal(pre: string, tag: string, n: int, post: string)
    requires tag != [] && NotNumeric(tag)
    requires LabelledCount(tag, pre) == None
    requires post == [] || !IsDigit(post[0])
    ensures LabelledCount(tag, pre + tag + Decimal(n) + post) == Some(n)
  {
    var d := Decimal(n);
    DecimalRoundTrip(n, post);
    LabelledCountAfter(pre, tag, d + post);
    Regroup(pre + tag, d, post);
  }

  // A regrouping step, kept as a lemma only to keep the proof above cheap.
  lemma Regroup(a: string, c: string, e: string)
    ensures a + (c + e) == a + c + e
  {
  }

  /** Nothing before the end of the label matches, when `pre` has no match
      and `rest` starts with the label. */
  lemma NoMatchBeforeNumber(pre: string, rest: string, tag: string)
    requires tag != [] && NotNumeric(tag) && |tag| <= |rest| && rest[..|tag|] == tag
    requires forall j: nat :: !MatchAt(pre, tag, j)
    ensures forall j: nat :: j < |pre| + |tag| ==> !MatchAt(pre + rest, tag, j)
  {
    forall j: nat | j < |pre| + |tag| ensures !MatchAt(pre + rest, tag, j) {
      if j <= |pre| {
        assert rest[0] == rest[..|tag|][0];
        NoMatchCarriedOver(pre, rest, tag, j);
      } else {
        NoMatchInsideLabel(pre, rest, tag, j);
      }
    }
  }

  /** A match with none before it is the one `re.search` reports. */
  lemma LeftmostMatch(s: string, tag: string, at: nat)
    requires MatchAt(s, tag, at)
    requires forall j: nat :: j < at ==> !MatchAt(s, tag, j)
    ensures LabelledCount(tag, s) == ParseSigned(s[at..])
  {
    var r := FirstMatch(s, tag, 0);
    assert r.Some? && r.value <= at;
  }

  /** `getPosition` reads `n` back from `pre + "TPE" + n + post` whenever
      `pre` alone gives no position and `post` does not continue the number. */
  lemma PositionOfReply(pre: string, n: int, post: string)
    requires PositionOf(pre) == None
    requires post == [] || !IsDigit(post[0])
    ensures PositionOf(pre + "TPE" + Decimal(n) + post) == Some(n)
  {
    LabelledCountOfDecimal(pre, "TPE", n, post);
  }

  /** `getPositionError` reads `n` back from `pre + "TPER" + n + post`
      whenever `pre` alone gives no position error and `post` does not
      continue the number. */
  lemma PositionErrorOfReply(pre: string, n: int, post: string)
    requires PositionErrorOf(pre) == None
    requires post == [] || !IsDigit(post[0])
    ensures PositionErrorOf(pre + "TPER" + Decimal(n) + post) == Some(n)
  {
    LabelledCountOfDecimal(pre, "TPER", n, post);
  }

  /** A label followed by one more character that cannot begin a number,
      then text that never repeats the label's first character, holds no
      match: the only look-behind hit is followed by that character. */
  lemma NoMatchAfterLongerLabel(tag: string, c: char, t: string)
    requires tag != [] && forall k :: 1 <= k < |tag| ==> tag[k] != tag[0]
    requires c != tag[0] && !IsDigit(c) && c != '-'
    requires forall k :: 0 <= k < |t| ==> t[k] != tag[0]
    ensures LabelledCount(tag, tag + [c] + t) == None
  {
    var s := tag + [c] + t;
    forall j: nat ensures !MatchAt(s, tag, j) {
      if j == |tag| {
        NoNumberAt(s, tag, j);
      } else if |tag| < j <= |s| {
        var i := j - |tag|;
        if i < |tag| {
          assert s[i] == tag[i];
        } else if i == |tag| {
          assert s[i] == c;
        } else {
          assert s[i] == t[i - |tag| - 1];
        }
        NoLabelAt(s, tag, j);
      }
    }
  }

  /** The look-behind fails where the label's first character is missing. */
  lemma NoLabelAt(s: string, tag: string, j: nat)
    requires tag != [] && |tag| <= j <= |s| && s[j - |tag|] != tag[0]
    ensures !MatchAt(s, tag, j)
  {
    assert s[j - |tag|..j][0] == s[j - |tag|];
  }

  /** No match where the text cannot begin a number. */
  lemma NoNumberAt(s: string, tag: string, j: nat)
    requires j < |s| && !IsDigit(s[j]) && s[j] != '-'
    ensures !MatchAt(s, tag, j)
  {
    assert s[j..][0] == s[j];
  }

  /** A position-error reply is not a position reply: "TPER" followed by a
      count holds no position. */
  lemma PositionErrorIsNotPosition(n: int)
    ensures PositionOf("TPER" + Decimal(n)) == None
  {
    var d := Decimal(n);
    var tag := "TPE";
    assert forall k :: 1 <= k < |tag| ==> tag[k] != tag[0];
    NoMatchAfterLongerLabel(tag, 'R', d);
    assert tag + ['R'] == "TPER";
  }

  /** A label with no digits after it gives no value. */
  lemma BareLabelIsBusy()
    ensures PositionErrorOf("TPER") == None
  {
    forall j: nat ensures !MatchAt("TPER", "TPER", j) {
      if LabelBefore("TPER", "TPER", j) {
        assert "TPER"[j..] == [];
      }
    }
  }
}
