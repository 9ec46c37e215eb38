/**
 The browser side of the calculator: the expression buffer shown in the input
 box, the result line under it and the newest-first history of evaluations,
 together with the handlers that buttons and keys call to change them.
 */
module Calculator {
  import opened JsString

  /** One history row: the expression that was sent and the reply recorded for it. */
  datatype Entry = Entry(expression: string, result: string)

  /** What the request for an evaluation settles to: the reply text the server
      sent, or a rejected request (the `catch` branch). */
  datatype Reply = Body(text: string) | NetworkFailure

  /** The most entries the history keeps. */
  const HistoryLimit: nat := 10

  /** The keys the keyboard handler appends, tested as a substring. */
  const AllowedKeys: string := "0123456789+-*/()."

  const EmptyMessage: string := "Error: Expression is empty"
  const PendingMessage: string := "Calculating..."
  const ReplyErrorMessage: string := "Error evaluating expression"
  const ServerErrorMessage: string := "Server error"
  const ResultPrefix: string := "Result: "

  function Min(a: int, b: int): int { if a <= b then a else b }

  /** A reply the page refuses to record: an empty one, or one that mentions
      "error" in any letter case. */
  predicate IsErrorReply(reply: string) {
    reply == [] || Includes(LowerCase(reply), "error")
  }

  /** The error test ignores letter case: two replies that agree once
      lower-cased are classified alike. */
  lemma ErrorReplyIgnoresCase(a: string, b: string)
    requires |a| == |b|
    requires forall k :: 0 <= k < |a| ==> LowerChar(a[k]) == LowerChar(b[k])
    ensures IsErrorReply(a) <==> IsErrorReply(b)
  {
    assert LowerCase(a) == LowerCase(b);
  }

  /** The history after one evaluation is recorded: the entry goes in front and,
      when that makes the list longer than the limit, the last (oldest) entry is
      dropped. On a history within the limit that keeps every earlier entry, in
      order, behind the new one, except the tenth. */
  function RecordEntry(history: seq<Entry>, e: Entry): (r: seq<Entry>)
    ensures |r| > 0 && r[0] == e
    ensures forall x :: x in r ==> x == e || x in history
    ensures |history| <= HistoryLimit ==>
      |r| <= HistoryLimit && r == [e] + history[..Min(|history|, HistoryLimit - 1)]
  {
    var pushed := [e] + history;
    if |pushed| > HistoryLimit then pushed[..|pushed| - 1] else pushed
  }

  /** The history after recording `entries` one after another, first to last. */
  function RecordAll(history: seq<Entry>, entries: seq<Entry>): seq<Entry>
    decreases |entries|
  {
    if entries == [] then history else RecordAll(RecordEntry(history, entries[0]), entries[1..])
  }

  function Reversed(s: seq<Entry>): (r: seq<Entry>)
    ensures |r| == |s|
  {
    if s == [] then [] else Reversed(s[1..]) + [s[0]]
  }

  /** Taking `n` from a prefix of `s` that has at least `n` elements is taking `n` from `s`. */
  lemma PrefixOfPrefix(s: seq<Entry>, m: nat, n: nat)
    requires n <= m <= |s|
    ensures s[..m][..n] == s[..n]
  {
  }

  /** A new entry followed by a prefix of the history is a prefix of the
      entry followed by the whole history, behind any common front part. */
  lemma KeptIsPrefix(front: seq<Entry>, e: Entry, history: seq<Entry>, kept: seq<Entry>)
    requires |kept| <= |history| && kept == history[..|kept|]
    ensures front + ([e] + kept) == (front + [e] + history)[..|front| + 1 + |kept|]
  {
    var whole := front + [e] + history;
    forall k | 0 <= k < |front| + 1 + |kept|
      ensures (front + ([e] + kept))[k] == whole[k]
    {
      if k > |front| {
        assert (front + ([e] + kept))[k] == kept[k - |front| - 1];
      }
    }
  }

  /** Recording several evaluations keeps the most recent ones, newest first,
      up to the limit: what was already there follows the new entries. */
  lemma {:induction false} RecordAllKeepsNewest(history: seq<Entry>, entries: seq<Entry>)
    requires |history| <= HistoryLimit
    ensures RecordAll(history, entries)
      == (Reversed(entries) + history)[..Min(|entries| + |history|, HistoryLimit)]
    decreases |entries|
  {
    if entries == [] {
      assert Reversed(entries) + history == history;
    } else {
      var e, rest := entries[0], entries[1..];
      var kept := history[..Min(|history|, HistoryLimit - 1)];
      var next := RecordEntry(history, e);
      assert next == [e] + kept;
      RecordAllKeepsNewest(next, rest);
      var n := Min(|rest| + |next|, HistoryLimit);
      assert n == Min(|entries| + |history|, HistoryLimit);
      var whole := Reversed(rest) + [e] + history;
      assert Reversed(entries) + history == whole;
      var m := |rest| + |next|;
      KeptIsPrefix(Reversed(rest), e, history, kept);
      PrefixOfPrefix(whole, m, n);
    }
  }

  /** The result line and the history that `calculate()` leaves behind, given
      the buffer, the history before and the server's reply. */
  function Calculated(buffer: string, history: seq<Entry>, reply: Reply): (r: (string, seq<Entry>))
    ensures Trim(buffer) == [] ==> r == (EmptyMessage, history)
    ensures Trim(buffer) != [] && reply.NetworkFailure? ==> r == (ServerErrorMessage, history)
    ensures Trim(buffer) != [] && reply.Body? && IsErrorReply(reply.text) ==> r == (ReplyErrorMessage, history)
    ensures Trim(buffer) != [] && reply.Body? && !IsErrorReply(reply.text) ==>
      r.0 == ResultPrefix + reply.text && r.1 == RecordEntry(history, Entry(Trim(buffer), reply.text))
    ensures |history| <= HistoryLimit ==> |r.1| <= HistoryLimit
  {
    var sent := Trim(buffer);
    if sent == [] then (EmptyMessage, history)
    else match reply
      case NetworkFailure => (ServerErrorMessage, history)
      case Body(text) =>
        if IsErrorReply(text) then (ReplyErrorMessage, history)
        else (ResultPrefix + text, RecordEntry(history, Entry(sent, text)))
  }

  /** An entry as `calculate()` records it: a trimmed, non-blank expression
      and a reply that does not read as an error. */
  predicate Recordable(e: Entry) {
    e.expression != [] && Trim(e.expression) == e.expression && !IsErrorReply(e.result)
  }

  /** Evaluating keeps the history clean: if every entry was recordable
      before, every entry is recordable after, whatever the buffer and reply. */
  lemma CalculatedKeepsEntriesRecordable(buffer: string, history: seq<Entry>, reply: Reply)
    requires forall x :: x in history ==> Recordable(x)
    ensures forall x :: x in Calculated(buffer, history, reply).1 ==> Recordable(x)
  {
    TrimIdempotent(buffer);
  }

  /** A key whose first character is not in `AllowedKeys` fails the substring
      test; the named keys Enter, Backspace and Escape are such keys. */
  lemma KeyNotAppended(key: string)
    requires key != [] && key[0] !in AllowedKeys
    ensures !Includes(AllowedKeys, key)
  {
    if Includes(AllowedKeys, key) {
      IncludedCharsOccur(AllowedKeys, key);
    }
  }

  /** The page: what the input box shows, what the result line shows, and the
      history list the page keeps in memory. */
  class CalculatorPage {
    var expression: string
    var resultText: string
    var history: seq<Entry>

    /** The history never holds more than `HistoryLimit` entries. */
    ghost predicate Valid()
      reads this
    {
      |history| <= HistoryLimit
    }

    /** The page as loaded: empty input, empty result line, empty history. */
    constructor ()
      ensures Valid()
      ensures expression == [] && resultText == [] && history == []
    {
      expression := [];
      resultText := [];
      history := [];
    }

    /** A button or an allowed key adds its text to the end of the buffer. */
    method AppendExpression(value: string)
      requires Valid()
      modifies this`expression
      ensures Valid()
      ensures expression == old(expression) + value
    {
      expression := expression + value;
    }

    /** The AC button and Escape: clears the buffer and the result line; the
        history stays as it was. */
    method ResetCalculator()
      requires Valid()
      modifies this`expression, this`resultText
      ensures Valid()
      ensures expression == [] && resultText == []
    {
      expression := [];
      resultText := [];
    }

    /** Backspace removes the final character of the buffer, if there is one. */
    method Backspace()
      requires Valid()
      modifies this`expression
      ensures Valid()
      ensures expression == DropLast(old(expression))
    {
      expression := DropLast(expression);
    }

    /** Puts a new evaluation in front of the history and drops the oldest one
        when the history would exceed the limit. */
    method AddToHistory(sent: string, result: string)
      requires Valid()
      modifies this`history
      ensures Valid()
      ensures history == RecordEntry(old(history), Entry(sent, result))
    {
      history := [Entry(sent, result)] + history;
      if |history| > HistoryLimit {
        history := history[..|history| - 1];
      }
    }

    /** `calculate()`: refuses a blank buffer, otherwise sends the trimmed
        buffer and records it with the reply unless the reply is empty, mentions
        "error", or the request failed. The buffer itself is never edited. */
    method Calculate(reply: Reply)
      requires Valid()
      modifies this`resultText, this`history
      ensures Valid()
      ensures (resultText, history) == Calculated(expression, old(history), reply)
    {
      var sent := Trim(expression);
      if sent == [] {
        resultText := EmptyMessage;
        return;
      }
      resultText := PendingMessage;
      match reply {
        case NetworkFailure =>
          resultText := ServerErrorMessage;
        case Body(text) =>
          if IsErrorReply(text) {
            resultText := ReplyErrorMessage;
            return;
          }
          resultText := ResultPrefix + text;
          AddToHistory(sent, text);
      }
    }

    /** The keydown handler. Its four tests run one after another: a key that
        occurs in `AllowedKeys` is appended, Enter evaluates (with `reply` as
        the server's answer), Backspace drops the last character and Escape
        resets; any other key changes nothing. */
    method KeyDown(key: string, reply: Reply)
      requires Valid()
      modifies this`expression, this`resultText, this`history
      ensures Valid()
      ensures Includes(AllowedKeys, key) ==>
        expression == old(expression) + key && resultText == old(resultText) && history == old(history)
      ensures key == "Enter" ==>
        expression == old(expression) && (resultText, history) == Calculated(old(expression), old(history), reply)
      ensures key == "Backspace" ==>
        expression == DropLast(old(expression)) && resultText == old(resultText) && history == old(history)
      ensures key == "Escape" ==>
        expression == [] && resultText == [] && history == old(history)
      ensures !Includes(AllowedKeys, key) && key != "Enter" && key != "Backspace" && key != "Escape" ==>
        expression == old(expression) && resultText == old(resultText) && history == old(history)
    {
      if key == "Enter" || key == "Backspace" || key == "Escape" {
        KeyNotAppended(key);
      }
      if Includes(AllowedKeys, key) {
        AppendExpression(key);
      }
      if key == "Enter" {
        Calculate(reply);
      }
      if key == "Backspace" {
        Backspace();
      }
      if key == "Escape" {
        ResetCalculator();
      }
    }
  }
}
