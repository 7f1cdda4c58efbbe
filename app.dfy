/**
 * The terminal client's state (client/src/app.rs): the chat history, the
 * scroll position over it with its auto-scroll arithmetic, the parsing of
 * server lines into messages, and the send path of the Enter key. Drawing is
 * not modelled; the arithmetic the draw step runs to decide where to scroll is.
 * The input widget is reduced to the text it holds.
 */
module ClientApp {
  import opened Text

  datatype Message = Message(author: string, content: string)

  const SystemAuthor := "System"
  const ListRequest := "GET_USERS\n"
  /** How many messages from the bottom still count as "near" it when a message arrives. */
  const AutoScrollThreshold := 2

  function SatSub(a: nat, b: nat): nat { if a >= b then a - b else 0 }
  function Max(a: nat, b: nat): nat { if a >= b then a else b }
  function Min(a: nat, b: nat): nat { if a <= b then a else b }

  /** `format!("{}: {}", author, content)`: how a message is laid out. */
  function Rendered(m: Message): string { m.author + ": " + m.content }

  /**
   * The rows a message wraps to in a column `width` wide. The rendered text
   * always holds ": ", so the source's branch for an empty text never applies.
   */
  function LineCount(m: Message, width: nat): (r: nat)
    requires width > 0
    ensures r >= 1
  {
    (|Rendered(m)| + width - 1) / width
  }

  /** The line count is the ceiling of the rendered length over the width: enough rows, and no spare one. */
  lemma LineCountIsCeiling(m: Message, width: nat)
    requires width > 0
    ensures (LineCount(m, width) - 1) * width < |Rendered(m)| <= LineCount(m, width) * width
  {
    var n, q := |Rendered(m)|, LineCount(m, width);
    var r := (n + width - 1) % width;
    assert n + width - 1 == q * width + r && 0 <= r < width;
    assert (q - 1) * width == q * width - width;
  }

  /** The messages that are displayed: those with a non-empty author, in order. */
  function Authored(ms: seq<Message>): (r: seq<Message>)
    ensures |r| <= |ms|
  {
    if ms == [] then []
    else (if ms[0].author != [] then [ms[0]] else []) + Authored(ms[1..])
  }

  lemma {:induction false} AuthoredAppend(x: seq<Message>, y: seq<Message>)
    ensures Authored(x + y) == Authored(x) + Authored(y)
  {
    if x != [] {
      assert (x + y)[1..] == x[1..] + y;
      AuthoredAppend(x[1..], y);
      ConcatAssoc(if x[0].author != [] then [x[0]] else [], Authored(x[1..]), Authored(y));
    } else {
      assert x + y == y;
    }
  }

  lemma AuthoredSplit(ms: seq<Message>, i: nat)
    requires i <= |ms|
    ensures Authored(ms) == Authored(ms[..i]) + Authored(ms[i..])
  {
    assert ms == ms[..i] + ms[i..];
    AuthoredAppend(ms[..i], ms[i..]);
  }

  lemma AuthoredCons(ms: seq<Message>, i: nat)
    requires i < |ms|
    ensures Authored(ms[i..]) == (if ms[i].author != [] then [ms[i]] else []) + Authored(ms[i + 1..])
  {
    assert ms[i..][1..] == ms[i + 1..];
  }

  /** No message is displayed: the layout divides by the width only for messages with an author. */
  predicate NoneAuthored(ms: seq<Message>) {
    forall i :: 0 <= i < |ms| ==> ms[i].author == []
  }

  /** When every message has an author, every message is displayed. */
  lemma {:induction false} AuthoredAll(ms: seq<Message>)
    requires forall i :: 0 <= i < |ms| ==> ms[i].author != []
    ensures Authored(ms) == ms
  {
    if ms != [] {
      AuthoredAll(ms[1..]);
    }
  }

  function SumLines(ms: seq<Message>, width: nat): nat
    requires width > 0
  {
    if ms == [] then 0 else LineCount(ms[0], width) + SumLines(ms[1..], width)
  }

  /** The rows a stack of displayed messages takes: their lines plus one blank row between neighbours. */
  function Height(ms: seq<Message>, width: nat): nat
    requires width > 0
  {
    if ms == [] then 0 else SumLines(ms, width) + |ms| - 1
  }

  /** Putting a message on top of a stack adds its lines, and a spacer when the stack is not empty. */
  lemma HeightCons(m: Message, ms: seq<Message>, width: nat)
    requires width > 0
    ensures Height([m] + ms, width) == LineCount(m, width) + (if ms == [] then 0 else 1) + Height(ms, width)
  {
    assert ([m] + ms)[1..] == ms;
    assert SumLines([m] + ms, width) == LineCount(m, width) + SumLines(ms, width);
  }

  /** A longer suffix of the history never takes fewer rows. */
  lemma {:induction false} HeightMonotone(ms: seq<Message>, i: nat, j: nat, width: nat)
    requires width > 0 && i <= j <= |ms|
    ensures Height(ms[j..], width) <= Height(ms[i..], width)
    decreases j - i
  {
    if i < j {
      HeightMonotone(ms, i + 1, j, width);
      assert ms[i..] == [ms[i]] + ms[i + 1..];
      HeightCons(ms[i], ms[i + 1..], width);
    }
  }

  /** The rows the last `k` of the displayed messages `a` take. */
  function SuffixHeight(a: seq<Message>, k: nat, width: nat): nat
    requires width > 0 && k <= |a|
  {
    Height(a[|a| - k..], width)
  }

  lemma SuffixHeightMonotone(a: seq<Message>, j: nat, k: nat, width: nat)
    requires width > 0 && j <= k <= |a|
    ensures SuffixHeight(a, j, width) <= SuffixHeight(a, k, width)
  {
    HeightMonotone(a, |a| - k, |a| - j, width);
  }

  /** The last `k` of the displayed messages `a` fit in `height` rows, and the last `k + 1` do not (or there are no more). */
  predicate GreedyFit(a: seq<Message>, height: nat, width: nat, k: nat)
    requires width > 0
  {
    && k <= |a|
    && SuffixHeight(a, k, width) <= height
    && (k < |a| ==> SuffixHeight(a, k + 1, width) > height)
  }

  /**
   * What `calculate_scroll_to_bottom` returns: the length of the history
   * minus the number of displayed messages that fit from the bottom.
   */
  predicate BottomOffset(ms: seq<Message>, height: nat, width: nat, r: nat)
    requires width > 0
  {
    exists k: nat :: GreedyFit(Authored(ms), height, width, k) && r == |ms| - k
  }

  /** The scroll-to-bottom offset is unique: the greedy count from the bottom is the largest that fits. */
  lemma BottomOffsetUnique(ms: seq<Message>, height: nat, width: nat, r1: nat, r2: nat)
    requires width > 0
    requires BottomOffset(ms, height, width, r1) && BottomOffset(ms, height, width, r2)
    ensures r1 == r2
  {
    var a := Authored(ms);
    var k1: nat :| GreedyFit(a, height, width, k1) && r1 == |ms| - k1;
    var k2: nat :| GreedyFit(a, height, width, k2) && r2 == |ms| - k2;
    GreedyFitUnique(a, height, width, k1, k2);
  }

  lemma GreedyFitUnique(a: seq<Message>, height: nat, width: nat, k1: nat, k2: nat)
    requires width > 0 && GreedyFit(a, height, width, k1) && GreedyFit(a, height, width, k2)
    ensures k1 == k2
  {
    if k1 < k2 {
      SuffixHeightMonotone(a, k1 + 1, k2, width);
    } else if k2 < k1 {
      SuffixHeightMonotone(a, k2 + 1, k1, width);
    }
  }

  /**
   * When every message has an author, the offset is where the displayed
   * suffix starts: the messages from it fit, and one more would not.
   */
  lemma BottomOffsetShowsFittingSuffix(ms: seq<Message>, height: nat, width: nat, r: nat)
    requires width > 0 && BottomOffset(ms, height, width, r)
    requires forall i :: 0 <= i < |ms| ==> ms[i].author != []
    ensures r <= |ms|
    ensures Height(ms[r..], width) <= height
    ensures r > 0 ==> Height(ms[r - 1..], width) > height
  {
    AuthoredAll(ms);
    var k: nat :| GreedyFit(ms, height, width, k) && r == |ms| - k;
  }

  /**
   * `calculate_scroll_to_bottom`: walk the history from the newest message,
   * skipping messages without an author, and count how many fit in
   * `height` rows, stopping at the first that does not.
   */
  method CalculateScrollToBottom(messages: seq<Message>, height: nat, width: nat) returns (r: nat)
    requires width > 0 || NoneAuthored(messages)
    ensures r <= |messages|
    ensures messages == [] ==> r == 0
    ensures width > 0 ==> BottomOffset(messages, height, width, r)
    ensures width == 0 ==> r == |messages|
  {
    if messages == [] {
      if width > 0 {
        ScrollToBottomFits(messages, height, width, 0, 0);
      }
      return 0;
    }
    var total := 0;
    var fromBottom := 0;
    var i := |messages|;
    while i > 0
      invariant 0 <= i <= |messages|
      invariant fromBottom <= |messages| - i
      invariant width == 0 ==> fromBottom == 0
      invariant width > 0 ==> fromBottom == |Authored(messages[i..])| && total == Height(Authored(messages[i..]), width)
      invariant total <= height
    {
      var m := messages[i - 1];
      AuthoredCons(messages, i - 1);
      if m.author == [] {
        assert Authored(messages[i - 1..]) == Authored(messages[i..]);
        i := i - 1;
        continue;
      }
      var lines := LineCount(m, width);
      var withSpacing := if fromBottom > 0 then lines + 1 else lines;
      ghost var shown := Authored(messages[i..]);
      HeightCons(m, shown, width);
      assert Authored(messages[i - 1..]) == [m] + shown;
      assert fromBottom > 0 <==> shown != [];
      if total + withSpacing > height {
        break;
      }
      total := total + withSpacing;
      fromBottom := fromBottom + 1;
      i := i - 1;
    }
    r := |messages| - fromBottom;
    if width > 0 {
      ScrollToBottomFits(messages, height, width, i, fromBottom);
    }
  }

  /** The loop of `CalculateScrollToBottom` stops at `i` with the messages from `i` on accepted. */
  lemma ScrollToBottomFits(ms: seq<Message>, height: nat, width: nat, i: nat, k: nat)
    requires width > 0 && i <= |ms|
    requires k == |Authored(ms[i..])| && Height(Authored(ms[i..]), width) <= height
    requires i > 0 ==> (ms[i - 1].author != [] && Height([ms[i - 1]] + Authored(ms[i..]), width) > height)
    ensures BottomOffset(ms, height, width, |ms| - k)
  {
    var a := Authored(ms);
    var shown := Authored(ms[i..]);
    AuthoredSplit(ms, i);
    assert a[|a| - k..] == shown;
    if i > 0 {
      AuthoredSplit(ms, i - 1);
      AuthoredCons(ms, i - 1);
      assert a[|a| - k - 1..] == [ms[i - 1]] + shown;
    }
    assert GreedyFit(a, height, width, k);
  }

  /** The closed form `is_near_bottom` computes. */
  predicate NearBottom(count: nat, offset: nat, height: nat, threshold: nat) {
    count == 0 || SatSub(count, offset) <= Max(height / 2, 1) + threshold
  }

  /**
   * `is_near_bottom`: its `visible_lines` loop does not affect the answer,
   * which depends only on how many messages lie at or below the offset.
   */
  method IsNearBottom(messages: seq<Message>, offset: nat, height: nat, width: nat, threshold: nat) returns (b: bool)
    requires width > 0 || NoneAuthored(messages[Min(offset, |messages|)..])
    ensures b <==> NearBottom(|messages|, offset, height, threshold)
  {
    if messages == [] {
      return true;
    }
    var visible := 0;
    var i := Min(offset, |messages|);
    while i < |messages|
      invariant Min(offset, |messages|) <= i <= |messages|
    {
      var m := messages[i];
      if m.author == [] {
        i := i + 1;
        continue;
      }
      assert messages[Min(offset, |messages|)..][i - Min(offset, |messages|)] == m;
      var lines := LineCount(m, width);
      var withSpacing := if visible > 0 then lines + 1 else lines;
      visible := visible + withSpacing;
      if visible >= height {
        break;
      }
      i := i + 1;
    }
    var hiddenBelow := SatSub(|messages|, offset);
    var maxVisible := Max(height / 2, 1);
    return hiddenBelow <= maxVisible + threshold;
  }

  /**
   * The `Event::ServerMessage` arm of `run`: trim the line; drop it if blank;
   * split at the first colon into trimmed author and content, or attribute
   * the whole line to "System" when it has no colon.
   */
  function ParseServerMessage(raw: string): (r: Option<Message>)
    ensures r.None? <==> Trim(raw) == []
  {
    var t := Trim(raw);
    if t == [] then None
    else match Find(t, ':')
      case Some(i) => Some(Message(Trim(t[..i]), Trim(t[i + 1..])))
      case None => Some(Message(SystemAuthor, t))
  }

  /** A trimmed line with a colon: the author is what precedes the first colon, the content what follows it, both trimmed. */
  lemma ParseSplitsAtFirstColon(raw: string, i: nat)
    requires i < |Trim(raw)| && Trim(raw)[i] == ':' && ':' !in Trim(raw)[..i]
    ensures ParseServerMessage(raw) == Some(Message(Trim(Trim(raw)[..i]), Trim(Trim(raw)[i + 1..])))
  {
    var t := Trim(raw);
    assert t != [];
    FindFirst(t, ':', i);
  }

  /** A trimmed line without a colon is shown whole, from "System". */
  lemma ParseWithoutColon(raw: string)
    requires Trim(raw) != [] && ':' !in Trim(raw)
    ensures ParseServerMessage(raw) == Some(Message(SystemAuthor, Trim(raw)))
  {
  }

  /** What became of one write of the client to the server. */
  datatype SendOutcome =
    | Sent
    | LockFailed(error: string)   // the stream's mutex was poisoned
    | WriteFailed(error: string)  // `write_all` failed
    | FlushFailed(error: string)  // `flush` failed after the bytes were written

  /** The text shown for a failed send; `flushText` is the one prefix that depends on the caller. */
  function SendError(o: SendOutcome, flushText: string): string
    requires !o.Sent?
  {
    match o
    case LockFailed(e) => "Failed to lock stream: " + e
    case WriteFailed(e) => "Failed to write to server: " + e
    case FlushFailed(e) => flushText + e
  }

  class App {
    var messages: seq<Message>
    var scrollOffset: nat
    var shouldAutoScroll: bool
    var username: string
    /** The text the input widget holds. */
    var input: string
    var hasRequestedUserList: bool
    /** Every payload `write_all` accepted on the server stream, in order. */
    var sent: seq<string>

    /** The offset never skips past the end of the history. */
    ghost predicate Valid()
      reads this
    {
      scrollOffset <= |messages|
    }

    /** `App::new`. */
    constructor (username: string)
      ensures Valid()
      ensures this.username == username
      ensures messages == [] && scrollOffset == 0 && !shouldAutoScroll
      ensures input == [] && !hasRequestedUserList && sent == []
    {
      this.username := username;
      messages, scrollOffset, shouldAutoScroll := [], 0, false;
      input, hasRequestedUserList, sent := [], false, [];
    }

    /** `add_message`: one message at the end, nothing else changes. */
    method AddMessage(author: string, content: string)
      requires Valid()
      modifies this
      ensures Valid()
      ensures messages == old(messages) + [Message(author, content)]
      ensures scrollOffset == old(scrollOffset) && shouldAutoScroll == old(shouldAutoScroll)
      ensures username == old(username) && input == old(input)
      ensures hasRequestedUserList == old(hasRequestedUserList) && sent == old(sent)
    {
      messages := messages + [Message(author, content)];
    }

    /** `scroll_down`: towards newer messages, never below zero. */
    method ScrollDown()
      requires Valid()
      modifies this
      ensures Valid()
      ensures scrollOffset == SatSub(old(scrollOffset), 1)
      ensures messages == old(messages) && shouldAutoScroll == old(shouldAutoScroll)
      ensures username == old(username) && input == old(input)
      ensures hasRequestedUserList == old(hasRequestedUserList) && sent == old(sent)
    {
      if scrollOffset > 0 {
        scrollOffset := scrollOffset - 1;
      }
    }

    /** `scroll_up`: towards older messages, while at least one message stays below the offset. */
    method ScrollUp()
      requires Valid()
      modifies this
      ensures Valid()
      ensures old(scrollOffset) < SatSub(|messages|, 1) ==> scrollOffset == old(scrollOffset) + 1
      ensures old(scrollOffset) >= SatSub(|messages|, 1) ==> scrollOffset == old(scrollOffset)
      ensures old(scrollOffset) <= SatSub(|messages|, 1) ==> scrollOffset <= SatSub(|messages|, 1)
      ensures messages == old(messages) && shouldAutoScroll == old(shouldAutoScroll)
      ensures username == old(username) && input == old(input)
      ensures hasRequestedUserList == old(hasRequestedUserList) && sent == old(sent)
    {
      if scrollOffset < SatSub(|messages|, 1) {
        scrollOffset := scrollOffset + 1;
      }
    }

    /** The `Event::ServerMessage` arm of `run`. */
    method OnServerMessage(raw: string)
      requires Valid()
      modifies this
      ensures Valid()
      ensures ParseServerMessage(raw).None? ==>
        messages == old(messages) && shouldAutoScroll == old(shouldAutoScroll)
      ensures ParseServerMessage(raw).Some? ==>
        messages == old(messages) + [ParseServerMessage(raw).value] && shouldAutoScroll
      ensures scrollOffset == old(scrollOffset)
      ensures username == old(username) && input == old(input)
      ensures hasRequestedUserList == old(hasRequestedUserList) && sent == old(sent)
    {
      match ParseServerMessage(raw)
      case Some(m) =>
        AddMessage(m.author, m.content);
        shouldAutoScroll := true;
      case None =>
    }

    /** The first thing each pass of `run` does: ask the server for the roster, once. */
    method RequestUserListOnce(outcome: SendOutcome)
      requires Valid()
      modifies this
      ensures Valid()
      ensures hasRequestedUserList
      ensures old(hasRequestedUserList) ==>
        messages == old(messages) && sent == old(sent) && shouldAutoScroll == old(shouldAutoScroll)
      ensures !old(hasRequestedUserList) ==>
        && sent == old(sent) + (if outcome.Sent? || outcome.FlushFailed? then [ListRequest] else [])
        && messages == old(messages)
             + (if outcome.Sent? then [] else [Message(SystemAuthor, SendError(outcome, "Failed to request user list: "))])
        && shouldAutoScroll == (old(shouldAutoScroll) || !outcome.Sent?)
      ensures scrollOffset == old(scrollOffset) && username == old(username) && input == old(input)
    {
      if !hasRequestedUserList {
        hasRequestedUserList := true;
        if outcome.Sent? || outcome.FlushFailed? {
          sent := sent + [ListRequest];
        }
        if !outcome.Sent? {
          AddMessage(SystemAuthor, SendError(outcome, "Failed to request user list: "));
          shouldAutoScroll := true;
        }
      }
    }

    /**
     * The Enter key in `handle_key_event`: with text in the input, echo it
     * locally under the user's own name, send it with a trailing newline,
     * report a failed send as a "System" message, and clear the input.
     */
    method OnEnter(outcome: SendOutcome)
      requires Valid()
      modifies this
      ensures Valid()
      ensures old(input) == [] ==>
        messages == old(messages) && sent == old(sent) && input == [] && shouldAutoScroll == old(shouldAutoScroll)
      ensures old(input) != [] ==>
        && messages == old(messages) + [Message(username, old(input))]
             + (if outcome.Sent? then [] else [Message(SystemAuthor, SendError(outcome, "Failed to send message: "))])
        && sent == old(sent) + (if outcome.Sent? || outcome.FlushFailed? then [old(input) + "\n"] else [])
        && input == []
        && shouldAutoScroll
      ensures scrollOffset == old(scrollOffset) && username == old(username)
      ensures hasRequestedUserList == old(hasRequestedUserList)
    {
      if input != [] {
        var content := input;
        AddMessage(username, content);
        shouldAutoScroll := true;
        if outcome.Sent? || outcome.FlushFailed? {
          sent := sent + [content + "\n"];
        }
        if !outcome.Sent? {
          AddMessage(SystemAuthor, SendError(outcome, "Failed to send message: "));
          shouldAutoScroll := true;
        }
        input := [];
      }
    }

    /**
     * The auto-scroll step of `draw`, for a content area of `width` by
     * `height` cells. It runs only when a message has arrived since the last draw.
     */
    method AutoScroll(width: nat, height: nat)
      requires Valid()
      requires shouldAutoScroll ==> DrawDefined(messages, scrollOffset, width, height)
      modifies this
      ensures Valid()
      ensures !shouldAutoScroll
      ensures old(shouldAutoScroll) ==> DrawScroll(messages, old(scrollOffset), width, height, scrollOffset)
      ensures !old(shouldAutoScroll) ==> scrollOffset == old(scrollOffset)
      ensures messages == old(messages) && username == old(username) && input == old(input)
      ensures hasRequestedUserList == old(hasRequestedUserList) && sent == old(sent)
    {
      if shouldAutoScroll {
        scrollOffset := ScrollOnDraw(messages, scrollOffset, width, height);
        shouldAutoScroll := false;
      }
    }
  }

  /**
   * The layout of a draw never divides by zero: the content area is wider
   * than its padding, or no message the draw measures has an author.
   */
  predicate DrawDefined(messages: seq<Message>, offset: nat, width: nat, height: nat) {
    || SatSub(width, 2) > 0
    || (&& NoneAuthored(messages[Min(offset, |messages|)..])
        && (!NearBottom(|messages|, offset, SatSub(height, 2), AutoScrollThreshold) || NoneAuthored(messages)))
  }

  /** The offset after a draw that auto-scrolls: the bottom offset when near the bottom, the old one otherwise. */
  predicate DrawScroll(messages: seq<Message>, offset: nat, width: nat, height: nat, r: nat) {
    && r <= Max(offset, |messages|)
    && (if NearBottom(|messages|, offset, SatSub(height, 2), AutoScrollThreshold)
        then (if SatSub(width, 2) > 0 then BottomOffset(messages, SatSub(height, 2), SatSub(width, 2), r)
              else r == |messages|)
        else r == offset)
  }

  /**
   * The auto-scroll arithmetic of `draw`: one cell of padding on each side
   * of the content area, a threshold of two messages; when the view is near
   * the bottom, jump to the bottom.
   */
  method ScrollOnDraw(messages: seq<Message>, offset: nat, width: nat, height: nat) returns (r: nat)
    requires DrawDefined(messages, offset, width, height)
    ensures DrawScroll(messages, offset, width, height, r)
  {
    var w := SatSub(width, 2);
    var h := SatSub(height, 2);
    var near := IsNearBottom(messages, offset, h, w, AutoScrollThreshold);
    r := offset;
    if near {
      r := CalculateScrollToBottom(messages, h, w);
    }
  }
}
