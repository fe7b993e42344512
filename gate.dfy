/**
 * The command gate of `main` in scripts/comment_to_config.js: only an
 * `issue_comment` event whose body starts with `/deploy` or `/design` reaches
 * `applyFromText`, and what reaches it is the body with the command removed.
 */
module Gate {
  import opened Text

  /** `/^\s*\/(deploy|design)\b/i.test(body)`. */
  predicate IsCommand(body: string) {
    var a := SpaceEnd(body, 0);
    a < |body| && body[a] == '/' &&
    (LitCI(body, a + 1, "deploy") || LitCI(body, a + 1, "design")) &&
    Boundary(body, a + 7)
  }

  /**
   * The text handed to `applyFromText`, or `None` when `main` returns early: the
   * event is not a comment, or the body does not start with the command.
   * `body.replace(/^\s*\/(deploy|design)\s*\/i, "")` removes the same command
   * that the test found, and the whitespace after it.
   */
  function CommandText(eventName: string, body: string): (r: Option<string>)
    ensures r.Some? ==> eventName == "issue_comment" && IsCommand(body)
    ensures r.Some? ==> |r.value| < |body| && r.value == body[|body| - |r.value|..]
    ensures r.Some? ==> r.value == [] || !IsSpace(r.value[0])
  {
    if eventName != "issue_comment" || !IsCommand(body) then None
    else Some(body[SpaceEnd(body, SpaceEnd(body, 0) + 7)..])
  }

  /**
   * The shape of a command body, stated without the scanning functions: whitespace
   * up to `i`, a slash, one of the two command words in any case followed by a
   * character that is not a word character (or the end), whitespace up to `j`, and
   * the rest starting at `j` with no whitespace in front.
   */
  predicate CommandShape(body: string, i: nat, j: nat) {
    i + 7 <= j <= |body| &&
    (forall k :: 0 <= k < i ==> IsSpace(body[k])) &&
    body[i] == '/' && (LitCI(body, i + 1, "deploy") || LitCI(body, i + 1, "design")) &&
    (i + 7 == |body| || !IsWordChar(body[i + 7])) &&
    (forall k :: i + 7 <= k < j ==> IsSpace(body[k])) &&
    (j == |body| || !IsSpace(body[j]))
  }

  /** The command words end in a word character, so `\b` after them is a non-word character or the end. */
  lemma CommandBoundary(body: string, a: nat)
    requires LitCI(body, a + 1, "deploy") || LitCI(body, a + 1, "design")
    ensures Boundary(body, a + 7) <==> (a + 7 == |body| || !IsWordChar(body[a + 7]))
  {
    if LitCI(body, a + 1, "deploy") {
      LitCIChars(body, a + 1, "deploy");
    } else {
      LitCIChars(body, a + 1, "design");
    }
    assert IsWordChar(body[a + 6]);
  }

  /** What the gate passes on follows a command of that shape. */
  lemma CommandTextShape(eventName: string, body: string)
    requires CommandText(eventName, body).Some?
    ensures CommandShape(body, SpaceEnd(body, 0), SpaceEnd(body, SpaceEnd(body, 0) + 7))
  {
    SpaceEndAll(body, 0);
    SpaceEndAll(body, SpaceEnd(body, 0) + 7);
    CommandBoundary(body, SpaceEnd(body, 0));
  }

  /** A body of that shape passes, and the gate finds the same command and the same rest. */
  lemma ShapeCommandText(body: string, i: nat, j: nat)
    requires CommandShape(body, i, j)
    ensures CommandText("issue_comment", body) == Some(body[j..])
  {
    RunEndUnique(body, 0, i, IsSpace);
    RunEndUnique(body, i + 7, j, IsSpace);
    CommandBoundary(body, i);
  }

  /** The gate passes exactly the bodies of that shape, and hands on what follows the command. */
  lemma CommandTextIff(eventName: string, body: string, rest: string)
    ensures CommandText(eventName, body) == Some(rest) <==>
            eventName == "issue_comment" &&
            exists i: nat, j: nat :: CommandShape(body, i, j) && rest == body[j..]
  {
    if CommandText(eventName, body) == Some(rest) {
      CommandTextShape(eventName, body);
    }
    if eventName == "issue_comment" && exists i: nat, j: nat :: CommandShape(body, i, j) && rest == body[j..] {
      var i: nat, j: nat :| CommandShape(body, i, j) && rest == body[j..];
      ShapeCommandText(body, i, j);
    }
  }
}
