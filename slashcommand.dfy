/** How FilteredTextEdit::submit turns the editor's text into the signal it
    emits: a plain message, or a slash command split into name and args. */
module SlashCommand {
  import opened QtString

  /** The two signals submit can emit. */
  datatype Submission = Message(text: string) | Command(name: string, args: string)

  function ParseSubmission(text: string): Submission
  {
    if |text| > 0 && text[0] == '/' then
      var commandEnd := if IndexOf(text, ' ') == -1 then |text| else IndexOf(text, ' ');
      var name := Mid(text, 1, commandEnd - 1);
      var args := Mid(text, commandEnd + 1, -1);
      if name == "" || name == "/" then Message(args) else Command(name, args)
    else
      Message(text)
  }

  /** Text that does not start with '/' is sent verbatim, untrimmed. */
  lemma ParsePlain(text: string)
    requires |text| == 0 || text[0] != '/'
    ensures ParseSubmission(text) == Message(text)
  {
  }

  /** The name runs from after the '/' up to the first space (or the end),
      the args are everything after that space; an empty name or the name
      "/" turns the args into a plain message. */
  lemma ParseSlash(text: string)
    requires |text| > 0 && text[0] == '/'
    ensures var i := IndexOf(text, ' ');
            var name := if i == -1 then text[1..] else text[1..i];
            var args := if i == -1 then "" else text[i + 1..];
            ParseSubmission(text) ==
              if name == "" || name == "/" then Message(args) else Command(name, args)
  {
    var i := IndexOf(text, ' ');
    if i == -1 {
      MidRange(text, 1, |text| - 1);
      MidPastEnd(text, |text| + 1, -1);
    } else {
      MidRange(text, 1, i - 1);
      MidFrom(text, i + 1);
    }
  }

  /** A command written out as "/name args" or "/name" parses back to that
      command, provided the name is one submit accepts. */
  lemma ParseCommandRoundTrip(name: string, args: string)
    requires name != "" && name != "/" && ' ' !in name
    ensures ParseSubmission("/" + name + " " + args) == Command(name, args)
    ensures ParseSubmission("/" + name) == Command(name, "")
  {
    var t := "/" + name + " " + args;
    ParseSlash(t);
    FirstSpaceAfter(name, args);
    assert t[1..|name| + 1] == name;
    assert t[|name| + 2..] == args;
    var u := "/" + name;
    ParseSlash(u);
    assert ' ' !in u by {
      assert forall k :: 1 <= k < |u| ==> u[k] == name[k - 1];
    }
    assert u[1..] == name;
  }

  /** Every command submit emits came from text of one of those two shapes. */
  lemma ParseCommandInverse(text: string)
    requires ParseSubmission(text).Command?
    ensures var c := ParseSubmission(text);
            c.name != "" && c.name != "/" && ' ' !in c.name &&
            (text == "/" + c.name + " " + c.args || (text == "/" + c.name && c.args == ""))
  {
    ParseSlash(text);
    var i := IndexOf(text, ' ');
    if i == -1 {
      assert text == "/" + text[1..];
    } else {
      assert text == "/" + text[1..i] + " " + text[i + 1..];
    }
  }

  /** A slash text yields a message exactly in the escape forms "/ msg",
      "// msg", "/" and "//"; the latter two send an empty message. */
  lemma ParseEscapeForms(msg: string)
    ensures ParseSubmission("/ " + msg) == Message(msg)
    ensures ParseSubmission("// " + msg) == Message(msg)
    ensures ParseSubmission("/") == Message("")
    ensures ParseSubmission("//") == Message("")
  {
    ParseSlash("/ " + msg);
    assert IndexOf("/ " + msg, ' ') == 1;
    assert ("/ " + msg)[2..] == msg;
    ParseSlash("// " + msg);
    assert ("// " + msg)[2] == ' ' && ("// " + msg)[..2] == "//";
    assert IndexOf("// " + msg, ' ') == 2;
    assert ("// " + msg)[3..] == msg;
    ParseSlash("/");
    ParseSlash("//");
  }

  /** The converse: a slash text that parses to a message has one of the
      escape forms. */
  lemma ParseEscapeInverse(text: string)
    requires |text| > 0 && text[0] == '/' && ParseSubmission(text).Message?
    ensures var m := ParseSubmission(text).text;
            text == "/ " + m || text == "// " + m ||
            (m == "" && (text == "/" || text == "//"))
  {
    ParseSlash(text);
    var i := IndexOf(text, ' ');
    if i == -1 {
      assert text == "/" + text[1..];
    } else if i == 1 {
      assert text == "/ " + text[2..];
    } else {
      assert text[1..i] == "/";
      assert text == "// " + text[3..];
    }
  }

  /** In "/name args" with a space-free name, the first space is the one
      right after the name. */
  lemma FirstSpaceAfter(name: string, args: string)
    requires ' ' !in name
    ensures IndexOf("/" + name + " " + args, ' ') == |name| + 1
  {
    var t := "/" + name + " " + args;
    assert t[|name| + 1] == ' ';
    assert forall k :: 1 <= k < |name| + 1 ==> t[k] == name[k - 1];
    assert ' ' !in t[..|name| + 1];
  }
}
