/**
 * The chat script, with the user interface, the vector store and the language
 * model abstracted away: the line-by-line stream of a text, the accumulation of
 * the generated fragments, the transcript kept across turns and the sidebar
 * that lists the user's questions.
 */
module Chat {
  import opened Wrappers

  // ---------------------------------------------------------------------------
  // `text.split('\n')` and the `stream` generator
  // ---------------------------------------------------------------------------

  /** Python's `text.split('\n')`: the segments between newlines, always at least one. */
  function Split(text: string): (parts: seq<string>)
    ensures |parts| >= 1
  {
    if text == [] then [""]
    else
      var rest := Split(text[1..]);
      if text[0] == '\n' then [""] + rest else [[text[0]] + rest[0]] + rest[1..]
  }

  /** Python's `'\n'.join(parts)`, the inverse of `Split`. */
  function Join(parts: seq<string>): string {
    if |parts| == 0 then ""
    else if |parts| == 1 then parts[0]
    else parts[0] + "\n" + Join(parts[1..])
  }

  function NewlineCount(text: string): nat {
    if text == [] then 0 else (if text[0] == '\n' then 1 else 0) + NewlineCount(text[1..])
  }

  lemma JoinExtendFirst(c: char, parts: seq<string>)
    requires |parts| >= 1
    ensures Join([[c] + parts[0]] + parts[1..]) == [c] + Join(parts)
  {
    if |parts| > 1 {
      assert ([[c] + parts[0]] + parts[1..])[1..] == parts[1..];
    }
  }

  /** Joining the segments with newlines gives the text back. */
  lemma {:induction false} JoinSplit(text: string)
    ensures Join(Split(text)) == text
  {
    if text != [] {
      var rest := Split(text[1..]);
      JoinSplit(text[1..]);
      if text[0] == '\n' {
        assert ([""] + rest)[1..] == rest;
      } else {
        JoinExtendFirst(text[0], rest);
      }
      assert text == [text[0]] + text[1..];
    }
  }

  /** A text without newlines is a single segment. */
  lemma {:induction false} SplitWithoutNewline(text: string)
    requires '\n' !in text
    ensures Split(text) == [text]
  {
    if text != [] {
      assert '\n' !in text[1..];
      SplitWithoutNewline(text[1..]);
      assert text == [text[0]] + text[1..];
    }
  }

  lemma {:induction false} SplitAtFirstNewline(a: string, b: string)
    requires '\n' !in a
    ensures Split(a + "\n" + b) == [a] + Split(b)
  {
    var s := a + "\n" + b;
    if a == [] {
      assert s[1..] == b;
    } else {
      assert s[1..] == a[1..] + "\n" + b;
      assert '\n' !in a[1..];
      SplitAtFirstNewline(a[1..], b);
      assert [s[0]] + a[1..] == a;
    }
  }

  /** Splitting newline-free segments joined by newlines gives the segments back. */
  lemma {:induction false} SplitJoin(parts: seq<string>)
    requires |parts| >= 1
    requires forall i :: 0 <= i < |parts| ==> '\n' !in parts[i]
    ensures Split(Join(parts)) == parts
  {
    if |parts| == 1 {
      SplitWithoutNewline(parts[0]);
    } else {
      SplitJoin(parts[1..]);
      SplitAtFirstNewline(parts[0], Join(parts[1..]));
      assert [parts[0]] + parts[1..] == parts;
    }
  }

  /** No segment holds a newline, and there is one segment more than there are newlines. */
  lemma {:induction false} SplitSegments(text: string)
    ensures |Split(text)| == NewlineCount(text) + 1
    ensures forall i :: 0 <= i < |Split(text)| ==> '\n' !in Split(text)[i]
  {
    if text != [] {
      SplitSegments(text[1..]);
      var rest := Split(text[1..]);
      if text[0] != '\n' {
        var parts := Split(text);
        assert parts[0] == [text[0]] + rest[0];
        forall i | 1 <= i < |parts| ensures '\n' !in parts[i] {
          assert parts[i] == rest[i];
        }
      }
    }
  }

  /**
   * The items `stream(text)` yields: each segment of `text.split('\n')`
   * followed by one space. There is one item more than there are newlines,
   * every item ends in a space, and no item holds a newline.
   */
  function Stream(text: string): (items: seq<string>)
    ensures |items| == NewlineCount(text) + 1
    ensures forall i :: 0 <= i < |items| ==> |items[i]| >= 1 && items[i][|items[i]| - 1] == ' ' && '\n' !in items[i]
  {
    SplitSegments(text);
    var parts := Split(text);
    seq(|parts|, i requires 0 <= i < |parts| => parts[i] + " ")
  }

  /** Each item with its last character (the appended space) removed. */
  function Unspace(items: seq<string>): seq<string> {
    seq(|items|, i requires 0 <= i < |items| => if items[i] == [] then [] else items[i][..|items[i]| - 1])
  }

  /**
   * `stream` yields one item per newline-separated segment, in order: item `i`
   * is segment `i` and one space, no item holds a newline, and the text is the
   * items with their spaces removed, joined by newlines.
   */
  lemma StreamYields(text: string)
    ensures |Stream(text)| == NewlineCount(text) + 1
    ensures forall i :: 0 <= i < |Stream(text)| ==>
      && Stream(text)[i] == Split(text)[i] + " "
      && '\n' !in Stream(text)[i]
    ensures Join(Unspace(Stream(text))) == text
  {
    SplitSegments(text);
    JoinSplit(text);
    var items := Stream(text);
    assert Unspace(items) == Split(text);
  }

  /** A text without a newline streams as one item, itself and a space. */
  lemma StreamWithoutNewline(text: string)
    requires '\n' !in text
    ensures Stream(text) == [text + " "]
  {
    SplitWithoutNewline(text);
  }

  /** The empty text streams as the single item `" "`. */
  lemma StreamEmpty()
    ensures Stream("") == [" "]
  {
    assert Stream("")[0] == " ";
  }

  // ---------------------------------------------------------------------------
  // Accumulating the generated response
  // ---------------------------------------------------------------------------

  /** One fragment of the streamed generation; only its `response` field is read. */
  datatype Fragment = Fragment(response: string)

  /**
   * The `response` fields of the fragments, concatenated in order: empty for
   * no fragments, and at least as long as any one response.
   */
  function Concat(fragments: seq<Fragment>): (r: string)
    ensures fragments == [] ==> r == ""
    ensures forall i :: 0 <= i < |fragments| ==> |fragments[i].response| <= |r|
  {
    if fragments == [] then ""
    else Concat(fragments[..|fragments| - 1]) + fragments[|fragments| - 1].response
  }

  /** The accumulation loop: `full_resp` starts empty and gains each fragment's response. */
  method AccumulateResponse(fragments: seq<Fragment>) returns (fullResp: string)
    ensures fullResp == Concat(fragments)
  {
    fullResp := "";
    for k := 0 to |fragments|
      invariant fullResp == Concat(fragments[..k])
    {
      assert fragments[..k + 1][..k] == fragments[..k];
      fullResp := fullResp + fragments[k].response;
    }
    assert fragments[..|fragments|] == fragments;
  }

  /** Accumulating two batches of fragments gives the two accumulations one after the other. */
  lemma {:induction false} ConcatAppend(a: seq<Fragment>, b: seq<Fragment>)
    ensures Concat(a + b) == Concat(a) + Concat(b)
    decreases |b|
  {
    if b == [] {
      assert a + b == a;
    } else {
      var b' := b[..|b| - 1];
      assert (a + b)[..|a + b| - 1] == a + b';
      ConcatAppend(a, b');
    }
  }

  /**
   * Fragment `i` sits in the accumulated response right after the fragments
   * before it and right before the fragments after it.
   */
  lemma {:induction false} ConcatPlacement(fragments: seq<Fragment>, i: nat)
    requires i < |fragments|
    ensures Concat(fragments) == Concat(fragments[..i]) + fragments[i].response + Concat(fragments[i + 1..])
  {
    var front, f, back := fragments[..i], fragments[i], fragments[i + 1..];
    assert fragments == (front + [f]) + back;
    ConcatAppend(front + [f], back);
    assert (front + [f])[..|front|] == front;
    assert Concat(front + [f]) == Concat(front) + f.response;
  }

  // ---------------------------------------------------------------------------
  // The transcript and the sidebar
  // ---------------------------------------------------------------------------

  /** A transcript entry `{"role": ..., "content": ...}`. */
  datatype Message = Message(role: string, content: string)

  /**
   * The contents the sidebar writes: those of the `'user'` entries, in
   * transcript order. There are at most as many as entries, and each is the
   * content of some `'user'` entry.
   */
  function UserContents(messages: seq<Message>): (shown: seq<string>)
    ensures |shown| <= |messages|
    ensures forall k :: 0 <= k < |shown| ==>
      exists i :: 0 <= i < |messages| && messages[i].role == "user" && messages[i].content == shown[k]
  {
    if messages == [] then []
    else
      var last := messages[|messages| - 1];
      UserContents(messages[..|messages| - 1]) + if last.role == "user" then [last.content] else []
  }

  /** The sidebar of a transcript is the sidebar of its first part followed by that of the rest. */
  lemma {:induction false} UserContentsAppend(a: seq<Message>, b: seq<Message>)
    ensures UserContents(a + b) == UserContents(a) + UserContents(b)
    decreases |b|
  {
    if b == [] {
      assert a + b == a;
    } else {
      var b' := b[..|b| - 1];
      assert (a + b)[..|a + b| - 1] == a + b';
      UserContentsAppend(a, b');
    }
  }

  /** The sidebar shows a text exactly when some user entry has that content. */
  lemma {:induction false} UserContentsMembers(messages: seq<Message>, x: string)
    ensures x in UserContents(messages) <==> exists i :: 0 <= i < |messages| && messages[i].role == "user" && messages[i].content == x
  {
    if messages != [] {
      var n := |messages| - 1;
      var front := messages[..n];
      UserContentsMembers(front, x);
      if exists i :: 0 <= i < |messages| && messages[i].role == "user" && messages[i].content == x {
        var i :| 0 <= i < |messages| && messages[i].role == "user" && messages[i].content == x;
        if i < n {
          assert front[i] == messages[i];
        }
      }
      if x in UserContents(front) {
        var i :| 0 <= i < |front| && front[i].role == "user" && front[i].content == x;
        assert messages[i] == front[i];
      }
    }
  }

  /** Appending the user's message adds its prompt to the sidebar. */
  lemma PromptAddsToSidebar(messages: seq<Message>, prompt: string)
    ensures UserContents(messages + [Message("user", prompt)]) == UserContents(messages) + [prompt]
  {
    assert (messages + [Message("user", prompt)])[..|messages|] == messages;
  }

  /** Appending the assistant's message leaves the sidebar as it was. */
  lemma AssistantLeavesSidebar(messages: seq<Message>, reply: string)
    ensures UserContents(messages + [Message("assistant", reply)]) == UserContents(messages)
  {
    assert (messages + [Message("assistant", reply)])[..|messages|] == messages;
  }

  /** One message on each side of a turn: the sidebar gains exactly the new prompt. */
  lemma TurnAddsPromptToSidebar(messages: seq<Message>, prompt: string, reply: string)
    ensures UserContents(messages + [Message("user", prompt), Message("assistant", reply)]) == UserContents(messages) + [prompt]
  {
    var asked := messages + [Message("user", prompt)];
    PromptAddsToSidebar(messages, prompt);
    AssistantLeavesSidebar(asked, reply);
    assert asked + [Message("assistant", reply)] == messages + [Message("user", prompt), Message("assistant", reply)];
  }

  /** Python's truthiness of the chat input: something was submitted and it is not empty. */
  predicate Submitted(input: Option<string>) {
    input.Some? && input.value != ""
  }

  /** `st.session_state.messages`, the transcript that lives across the reruns of the script. */
  class Session {
    var messages: seq<Message>

    /** The transcript starts empty when the session has none. */
    constructor ()
      ensures messages == []
    {
      messages := [];
    }

    /**
     * One run with chat input `input` (None when nothing was submitted).
     * A submitted prompt appends the user's message. If the store query, the
     * generation and the fragment loop return, `reply` holds the fragments the
     * accumulation loop iterates over, and the assistant's message with their
     * accumulation follows; if one of them raises, `reply` is None and the
     * transcript keeps only the user's message. Earlier entries stay as they were.
     */
    method HandleInput(input: Option<string>, reply: Option<seq<Fragment>>)
      modifies this
      ensures Submitted(input) && reply.Some? ==>
        messages == old(messages) + [Message("user", input.value), Message("assistant", Concat(reply.value))]
      ensures Submitted(input) && reply.None? ==> messages == old(messages) + [Message("user", input.value)]
      ensures !Submitted(input) ==> messages == old(messages)
      ensures UserContents(messages) ==
        if Submitted(input) then old(UserContents(messages)) + [input.value] else old(UserContents(messages))
    {
      if Submitted(input) {
        var prompt := input.value;
        PromptAddsToSidebar(messages, prompt);
        messages := messages + [Message("user", prompt)];
        if reply.Some? {
          var fullResp := AccumulateResponse(reply.value);
          AssistantLeavesSidebar(messages, fullResp);
          messages := messages + [Message("assistant", fullResp)];
        }
      }
    }
  }

}
