/**
 * The transcript formatter of the chat script: an already decoded list of
 * role/content messages becomes the single prompt text that is handed to the
 * local language model.
 */
module ChatPrompt {
  import opened Wrappers
  import opened Text
  import opened Seqs

  /** One decoded message; a key missing from the JSON object is None. */
  datatype Message = Message(role: Option<string>, content: Option<string>)

  /** The one way formatting stops: the leading system message has no
      "content" key, which Python reports as a KeyError. */
  datatype Fatal = MissingSystemContent

  /** Python's `str.capitalize` on ASCII: the first character upper-cased,
      all the others lower-cased. */
  function Capitalize(s: string): string {
    if |s| == 0 then "" else [UpperChar(s[0])] + Lower(s[1..])
  }

  /** `msg.get("role", "user")`. */
  function RoleOf(m: Message): string {
    match m.role
    case Some(r) => r
    case None => "user"
  }

  /** `msg.get("content", "")`. */
  function ContentOf(m: Message): string {
    match m.content
    case Some(c) => c
    case None => ""
  }

  /** The loop skips a message by its role alone, wherever it stands. */
  predicate IsSystem(m: Message) {
    RoleOf(m) == "system"
  }

  /** The body line of one non-system message. */
  function Line(m: Message): string {
    Capitalize(RoleOf(m)) + ": " + ContentOf(m) + "\n"
  }

  /** The body: one line per non-system message, in input order. */
  function Body(ms: seq<Message>): string
    decreases |ms|
  {
    if |ms| == 0 then ""
    else (if IsSystem(ms[0]) then "" else Line(ms[0])) + Body(ms[1..])
  }

  /** Only the first message is inspected for a system prompt, and only its
      role is compared (`get("role")`, so a missing role is not "system");
      its content is then read with `[...]`, which fails when it is absent. */
  function SystemPrompt(ms: seq<Message>): Result<string, Fatal> {
    if |ms| > 0 && ms[0].role == Some("system") then
      match ms[0].content
      case Some(c) => Success(c)
      case None => Failure(MissingSystemContent)
    else Success("")
  }

  /** The optional header line; an empty system prompt is falsy and adds
      nothing. */
  function Header(systemPrompt: string): string {
    if systemPrompt == "" then "" else "System: " + systemPrompt + "\n"
  }

  /** The whole prompt. Formatting fails only for a leading system message
      without content; an empty transcript gives the empty prompt. */
  function Prompt(ms: seq<Message>): (r: Result<string, Fatal>)
    ensures r.Failure? <==> |ms| > 0 && ms[0].role == Some("system") && ms[0].content.None?
    ensures |ms| == 0 ==> r == Success("")
  {
    match SystemPrompt(ms)
    case Failure(e) => Failure(e)
    case Success(sp) =>
      assert |ms| == 0 ==> Header(sp) + Body(ms) == "";
      Success(Header(sp) + Body(ms))
  }

  /** The formatting loop of the script, statement by statement. */
  method BuildContext(messages: seq<Message>) returns (r: Result<string, Fatal>)
    ensures r == Prompt(messages)
  {
    var systemPrompt := "";
    if |messages| > 0 && messages[0].role == Some("system") {
      if messages[0].content.None? {
        return Failure(MissingSystemContent);
      }
      systemPrompt := messages[0].content.value;
    }
    var context := "";
    if systemPrompt != "" {
      context := context + ("System: " + systemPrompt + "\n");
    }
    assert SystemPrompt(messages) == Success(systemPrompt);
    assert context == Header(systemPrompt);
    context := AppendLines(messages, context);
    PromptOf(messages, systemPrompt);
    return Success(context);
  }

  /** The script's `for` loop: every message's line appended to `context`. */
  method AppendLines(messages: seq<Message>, start: string) returns (context: string)
    ensures context == start + Body(messages)
  {
    context := start;
    assert context == start + Body(messages[..0]) by {
      assert Body(messages[..0]) == "";
      EmptyRight(start);
    }
    var i := 0;
    while i < |messages|
      invariant 0 <= i <= |messages|
      invariant context == start + Body(messages[..i])
    {
      var msg := messages[i];
      var role := RoleOf(msg);
      var content := ContentOf(msg);
      LoopStep(messages, i, start);
      PieceOf(msg);
      if role != "system" {
        context := context + (Capitalize(role) + ": " + content + "\n");
      } else {
        EmptyRight(context);
      }
      i := i + 1;
    }
    assert messages[..i] == messages;
  }

  /** What one message adds, in the loop's terms. */
  lemma PieceOf(m: Message)
    ensures Piece(m) == if RoleOf(m) != "system" then Capitalize(RoleOf(m)) + ": " + ContentOf(m) + "\n" else ""
  {
  }

  /** Once the system prompt is read, the prompt is its header followed by
      the body. */
  lemma PromptOf(ms: seq<Message>, sp: string)
    requires SystemPrompt(ms) == Success(sp)
    ensures Prompt(ms) == Success(Header(sp) + Body(ms))
  {
  }

  /** The body of a concatenation is the concatenation of the bodies: every
      message contributes independently, and in input order. */
  lemma {:induction false} BodyAppend(a: seq<Message>, b: seq<Message>)
    ensures Body(a + b) == Body(a) + Body(b)
    decreases |a|
  {
    if |a| == 0 {
      assert a + b == b;
    } else {
      assert (a + b)[0] == a[0];
      assert (a + b)[1..] == a[1..] + b;
      BodyAppend(a[1..], b);
    }
  }

  /** What one message adds to the body. */
  function Piece(m: Message): string {
    if IsSystem(m) then "" else Line(m)
  }

  /** One turn of the formatting loop: the body of a longer prefix is the
      shorter prefix's body followed by the next message's contribution. */
  lemma BodySnoc(ms: seq<Message>, i: nat)
    requires i < |ms|
    ensures Body(ms[..i + 1]) == Body(ms[..i]) + Piece(ms[i])
  {
    assert ms[..i + 1] == ms[..i] + [ms[i]];
    BodyAppend(ms[..i], [ms[i]]);
    BodySingle(ms[i]);
  }

  /** The loop invariant carried one message further. */
  lemma LoopStep(ms: seq<Message>, i: nat, h: string)
    requires i < |ms|
    ensures h + Body(ms[..i + 1]) == h + Body(ms[..i]) + Piece(ms[i])
  {
    BodySnoc(ms, i);
    AppendAssoc(h, Body(ms[..i]), Piece(ms[i]));
  }

  lemma EmptyRight(s: string)
    ensures s + "" == s
  {
  }

  /** A single message contributes its line, or nothing when its role is
      exactly "system". */
  lemma BodySingle(m: Message)
    ensures Body([m]) == if IsSystem(m) then "" else Line(m)
  {
    assert [m][1..] == [];
  }

  /** A leading system message is emitted once, as the header, and never as
      a body line. */
  lemma {:induction false} LeadingSystemOnce(ms: seq<Message>, c: string)
    requires |ms| > 0 && ms[0] == Message(Some("system"), Some(c))
    ensures Prompt(ms) == Success(Header(c) + Body(ms[1..]))
  {
    assert ms == [ms[0]] + ms[1..];
    BodyAppend([ms[0]], ms[1..]);
    BodySingle(ms[0]);
    assert IsSystem(ms[0]);
    assert Body(ms) == "" + Body(ms[1..]) == Body(ms[1..]);
    assert SystemPrompt(ms) == Success(c);
  }

  /** Without a leading system message there is no header. */
  lemma NoLeadingSystem(ms: seq<Message>)
    requires |ms| == 0 || ms[0].role != Some("system")
    ensures Prompt(ms) == Success(Body(ms))
  {
    assert SystemPrompt(ms) == Success("");
    assert "" + Body(ms) == Body(ms);
  }

  /** The label forgets the case the role was written in. */
  lemma CapitalizeIgnoresCase(s: string)
    ensures Capitalize(Upper(s)) == Capitalize(s)
    ensures Capitalize(Lower(s)) == Capitalize(s)
    ensures Capitalize(Capitalize(s)) == Capitalize(s)
  {
    if |s| > 0 {
      UpperLowerChar(s[0]);
      CaseIdempotent(s[1..]);
      assert Upper(s)[1..] == Upper(s[1..]);
      assert Lower(s)[1..] == Lower(s[1..]);
      assert Capitalize(s)[1..] == Lower(s[1..]);
    }
  }

  /** A message with both keys present is labelled by its role. */
  lemma LineOf(role: string, content: string)
    requires role != "system"
    ensures Body([Message(Some(role), Some(content))]) == Capitalize(role) + ": " + content + "\n"
  {
    BodySingle(Message(Some(role), Some(content)));
  }

  lemma CapitalizeExamples()
    ensures Capitalize("user") == "User"
    ensures Capitalize("assistant") == "Assistant"
    ensures Capitalize("ASSISTANT") == "Assistant"
    ensures Capitalize("System") == "System"
  {
    CapitalizeUser();
    CapitalizeAssistant();
    CapitalizeShouted();
    CapitalizeSystem();
  }

  lemma CapitalizeUser() ensures Capitalize("user") == "User" {}
  lemma CapitalizeAssistant() ensures Capitalize("assistant") == "Assistant" {}
  lemma CapitalizeShouted()
    ensures Capitalize("ASSISTANT") == "Assistant"
  {
    assert "ASSISTANT"[1..] == "SSISTANT";
    LowerShouted();
    CapitalizeOf("ASSISTANT", 'A', "ssistant");
    assert ['A'] + "ssistant" == "Assistant";
  }

  lemma CapitalizeOf(s: string, head: char, tail: string)
    requires |s| > 0 && UpperChar(s[0]) == head && Lower(s[1..]) == tail
    ensures Capitalize(s) == [head] + tail
  {
  }

  lemma LowerShouted()
    ensures Lower("SSISTANT") == "ssistant"
  {
  }

  lemma CapitalizeSystem() ensures Capitalize("System") == "System" {}

  /** A system prompt becomes the header, followed by the user line. */
  lemma ExampleWithSystem()
    ensures Prompt([Message(Some("system"), Some("Be terse.")), Message(Some("user"), Some("Hi"))])
            == Success("System: Be terse.\n" + "User: Hi\n")
  {
    SystemThenUser();
    UserHiBody();
    TerseHeader();
  }

  lemma SystemThenUser()
    ensures Prompt([Message(Some("system"), Some("Be terse.")), Message(Some("user"), Some("Hi"))])
            == Success(Header("Be terse.") + Body([Message(Some("user"), Some("Hi"))]))
  {
    var m := Message(Some("user"), Some("Hi"));
    var ms := [Message(Some("system"), Some("Be terse.")), m];
    LeadingSystemOnce(ms, "Be terse.");
    assert ms[1..] == [m];
  }

  lemma TerseHeader()
    ensures Header("Be terse.") == "System: Be terse.\n"
  {
  }

  lemma UserHiBody()
    ensures Body([Message(Some("user"), Some("Hi"))]) == "User: Hi\n"
  {
    LineOf("user", "Hi");
    UserHiLine();
  }

  lemma UserHiLine()
    ensures Capitalize("user") + ": " + "Hi" + "\n" == "User: Hi\n"
  {
    CapitalizeUser();
  }

  lemma AssistantHelloLine()
    ensures Capitalize("assistant") + ": " + "Hello" + "\n" == "Assistant: Hello\n"
  {
    CapitalizeAssistant();
  }

  /** Two ordinary messages give two lines, in order. */
  lemma TwoLines(r1: string, c1: string, r2: string, c2: string)
    requires r1 != "system" && r2 != "system"
    ensures Prompt([Message(Some(r1), Some(c1)), Message(Some(r2), Some(c2))])
            == Success(Capitalize(r1) + ": " + c1 + "\n" + (Capitalize(r2) + ": " + c2 + "\n"))
  {
    var m1 := Message(Some(r1), Some(c1));
    var m2 := Message(Some(r2), Some(c2));
    LineOf(r1, c1);
    LineOf(r2, c2);
    BodyAppend([m1], [m2]);
    assert [m1] + [m2] == [m1, m2];
    NoLeadingSystem([m1, m2]);
  }

  lemma ExampleConversation()
    ensures Prompt([Message(Some("user"), Some("Hi")), Message(Some("assistant"), Some("Hello"))])
            == Success("User: Hi\n" + "Assistant: Hello\n")
  {
    TwoLines("user", "Hi", "assistant", "Hello");
    UserHiLine();
    AssistantHelloLine();
  }

  /** An empty transcript is the empty prompt, and an empty object is a user
      message with no text. */
  lemma ExampleDefaults()
    ensures Prompt([]) == Success("")
    ensures Prompt([Message(None, None)]) == Success("User: \n")
  {
    var m := Message(None, None);
    CapitalizeExamples();
    BodySingle(m);
    assert RoleOf(m) == "user" && ContentOf(m) == "";
    assert Body([m]) == "User: \n";
    NoLeadingSystem([m]);
  }

  /** Roles are compared case-sensitively: "System" is an ordinary body
      line, and a later "system" message is dropped, not emitted. */
  lemma RoleComparisonIsExact(c: string)
    ensures Prompt([Message(Some("System"), Some(c))]) == Success("System: " + c + "\n")
    ensures Prompt([Message(Some("user"), Some(c)), Message(Some("system"), Some("x"))])
            == Success("User: " + c + "\n")
  {
    CapitalisedSystemIsBody(c);
    LaterSystemDropped(c);
  }

  lemma CapitalisedSystemIsBody(c: string)
    ensures Prompt([Message(Some("System"), Some(c))]) == Success("System: " + c + "\n")
  {
    var s := Message(Some("System"), Some(c));
    LineOf("System", c);
    NoLeadingSystem([s]);
    CapitalizeSystem();
    LabelText("System", "System: ", c);
  }

  lemma LaterSystemDropped(c: string)
    ensures Prompt([Message(Some("user"), Some(c)), Message(Some("system"), Some("x"))])
            == Success("User: " + c + "\n")
  {
    var u := Message(Some("user"), Some(c));
    var x := Message(Some("system"), Some("x"));
    LineOf("user", c);
    CapitalizeUser();
    LabelText("User", "User: ", c);
    assert Body([x]) == "" by {
      BodySingle(x);
    }
    BodyAppend([u], [x]);
    assert [u] + [x] == [u, x];
    EmptyRight(Body([u]));
    NoLeadingSystem([u, x]);
  }

  /** A body line written piece by piece. */
  lemma LabelText(tag: string, joined: string, c: string)
    requires tag + ": " == joined
    ensures tag + ": " + c + "\n" == joined + c + "\n"
  {
  }

  /** Only the leading system message must carry content; any other message
      without content formats with an empty one. */
  lemma MissingContent(ms: seq<Message>)
    ensures Prompt([Message(Some("system"), None)] + ms) == Failure(MissingSystemContent)
    ensures Prompt([Message(Some("user"), None)]) == Success("User: \n")
  {
    var u := Message(Some("user"), None);
    CapitalizeExamples();
    BodySingle(u);
    assert RoleOf(u) == "user" && ContentOf(u) == "";
    assert Body([u]) == "User: \n";
    NoLeadingSystem([u]);
  }
}
