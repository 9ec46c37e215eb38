/**
 What the page makes of the endpoint's answers. The endpoint's refusal
 "Invalid characters in expression" does not contain "error", so the page
 takes it for a result and records it in the history.
 */
module Exchange {
  import opened JsString
  import Calculator
  import Endpoint

  /** `c` is an `r` in either letter case. */
  predicate IsR(c: char) {
    LowerChar(c) == 'r'
  }

  /** No two consecutive characters of `m` are both `r` in either case. */
  predicate NoDoubleR(m: string) {
    forall k :: 0 <= k < |m| - 1 ==> !(IsR(m[k]) && IsR(m[k + 1]))
  }

  /** An occurrence of "error" has `r` in its second and third places. */
  lemma ErrorHasDoubleR(low: string, i: int)
    ensures OccursAt(low, "error", i) ==> low[i + 1] == 'r' && low[i + 2] == 'r'
  {
    if OccursAt(low, "error", i) {
      assert low[i + 1] == low[i..i + 5][1];
      assert low[i + 2] == low[i..i + 5][2];
    }
  }

  /** A text without two consecutive `r` does not mention "error" in any
      letter case, so the page does not treat it as an error reply. */
  lemma NoDoubleRNoError(m: string)
    requires m != [] && NoDoubleR(m)
    ensures !Calculator.IsErrorReply(m)
  {
    var low := LowerCase(m);
    forall i | 0 <= i <= |low| - 5 ensures !OccursAt(low, "error", i) {
      ErrorHasDoubleR(low, i);
    }
  }

  lemma ConcatNoDoubleR(a: string, b: string)
    requires NoDoubleR(a) && NoDoubleR(b)
    requires a == [] || b == [] || !IsR(a[|a| - 1]) || !IsR(b[0])
    ensures NoDoubleR(a + b)
  {
    forall k | 0 <= k < |a + b| - 1 ensures !(IsR((a + b)[k]) && IsR((a + b)[k + 1])) {
      if k + 1 < |a| {
        assert (a + b)[k] == a[k] && (a + b)[k + 1] == a[k + 1];
      } else if k >= |a| {
        assert (a + b)[k] == b[k - |a|] && (a + b)[k + 1] == b[k + 1 - |a|];
      } else {
        assert (a + b)[k] == a[|a| - 1] && (a + b)[k + 1] == b[0];
      }
    }
  }

  lemma FreeNoDoubleR(m: string)
    requires 'r' !in m && 'R' !in m
    ensures NoDoubleR(m) && (m == [] || !IsR(m[|m| - 1]))
  {
    forall k | 0 <= k < |m| ensures !IsR(m[k]) {
      assert m[k] in m;
    }
  }

  /** A piece that starts with one `r` and has none after it. */
  lemma LeadingRNoDoubleR(tail: string)
    requires tail != [] && 'r' !in tail && 'R' !in tail
    ensures NoDoubleR("r" + tail) && !IsR(("r" + tail)[|"r" + tail| - 1])
  {
    FreeNoDoubleR(tail);
    ConcatNoDoubleR("r", tail);
    assert ("r" + tail)[|"r" + tail| - 1] == tail[|tail| - 1];
  }

  /** A text made of an `r`-free head followed by three pieces, each a single
      `r` and a non-empty `r`-free tail, has no two consecutive `r`. */
  lemma PiecesNoDoubleR(head: string, t1: string, t2: string, t3: string)
    requires 'r' !in head && 'R' !in head
    requires t1 != [] && 'r' !in t1 && 'R' !in t1
    requires t2 != [] && 'r' !in t2 && 'R' !in t2
    requires t3 != [] && 'r' !in t3 && 'R' !in t3
    ensures NoDoubleR(head + ("r" + t1) + ("r" + t2) + ("r" + t3))
  {
    FreeNoDoubleR(head);
    LeadingRNoDoubleR(t1);
    LeadingRNoDoubleR(t2);
    LeadingRNoDoubleR(t3);
    ConcatNoDoubleR(head, "r" + t1);
    var a := head + ("r" + t1);
    assert a[|a| - 1] == t1[|t1| - 1];
    ConcatNoDoubleR(a, "r" + t2);
    var b := a + ("r" + t2);
    assert b[|b| - 1] == t2[|t2| - 1];
    ConcatNoDoubleR(b, "r" + t3);
  }

  /** The endpoint's refusal body, cut before each `r`. */
  lemma RefusalPieces()
    ensures Endpoint.Banner + Endpoint.InvalidCharactersMessage
      == (Endpoint.Banner + "Invalid cha") + ("r" + "acte") + ("r" + "s in exp") + ("r" + "ession")
  {
  }

  /** The endpoint's refusal does not read as an error to the page. */
  lemma RejectionNotAnError(reply: string)
    requires reply == Endpoint.Banner + Endpoint.InvalidCharactersMessage
    ensures !Calculator.IsErrorReply(reply)
  {
    RefusalPieces();
    PiecesNoDoubleR(Endpoint.Banner + "Invalid cha", "acte", "s in exp", "ession");
    NoDoubleRNoError(reply);
  }

  /** When the endpoint refuses an expression, the page shows the refusal as
      a result and records it, with the trimmed buffer, in the history. Since
      the endpoint as written refuses every expression, this is what every
      non-blank evaluation ends in. */
  lemma RejectionRecorded(buffer: string, history: seq<Calculator.Entry>, reply: string)
    requires reply == Endpoint.Banner + Endpoint.InvalidCharactersMessage
    requires Trim(buffer) != []
    ensures Calculator.Calculated(buffer, history, Calculator.Body(reply))
      == (Calculator.ResultPrefix + reply, Calculator.RecordEntry(history, Calculator.Entry(Trim(buffer), reply)))
  {
    RejectionNotAnError(reply);
  }
}
