/** TextInputWidget::command: what each slash command asks the chat page to
    do, and the whole path from submitted text to that request. */
module Commands {
  import opened QtString
  import opened SlashCommand

  /** The four room-membership requests that take "user reason" arguments. */
  datatype Moderation = Invite | Kick | Ban | Unban

  /** The request the input widget emits, or NoAction when it emits none. */
  datatype Action =
    | SendText(body: string)
    | SendEmote(body: string)
    | JoinRoom(room: string)
    | Moderate(kind: Moderation, user: string, reason: string)
    | ClearCache
    | NoAction

  const Shrug: string := "¯\\_(ツ)_/¯"
  const FlipTable: string := "(╯°□°)╯︵ ┻━┻"
  const UnflipTable: string := " ┯━┯╭( º _ º╭)"
  const SovietFlip: string := "ノ┬─┬ノ ︵ ( \\o°o)\\"

  /** The command names the widget recognises. */
  const KnownCommands: set<string> :=
    {"me", "join", "invite", "kick", "ban", "unban",
     "shrug", "fliptable", "unfliptable", "sovietflip", "clearcache"}

  /** A moderation request: the first space-separated field of the args is
      the user, every later field is the reason. */
  function ModerationRequest(kind: Moderation, args: string): Action
  {
    Moderate(kind, Section(args, ' ', 0, 0), Section(args, ' ', 1, -1))
  }

  function CommandAction(command: string, args: string): Action
  {
    if command == "me" then SendEmote(args)
    else if command == "join" then JoinRoom(args)
    else if command == "invite" then ModerationRequest(Invite, args)
    else if command == "kick" then ModerationRequest(Kick, args)
    else if command == "ban" then ModerationRequest(Ban, args)
    else if command == "unban" then ModerationRequest(Unban, args)
    else if command == "shrug" then SendText(Shrug)
    else if command == "fliptable" then SendText(FlipTable)
    else if command == "unfliptable" then SendText(UnflipTable)
    else if command == "sovietflip" then SendText(SovietFlip)
    else if command == "clearcache" then ClearCache
    else NoAction
  }

  /** The moderation kind a command name stands for, if any. */
  function ModerationKind(command: string): (k: Moderation)
    requires command in {"invite", "kick", "ban", "unban"}
  {
    if command == "invite" then Invite
    else if command == "kick" then Kick
    else if command == "ban" then Ban
    else Unban
  }

  /** invite/kick/ban/unban: the user is the args up to the first space and
      holds no space; the reason is the rest after that space, or empty when
      there is none; user and reason together give back the args. */
  lemma ModerationSplitsArgs(command: string, args: string)
    requires command in {"invite", "kick", "ban", "unban"}
    ensures var a := CommandAction(command, args);
            a.Moderate? && a.kind == ModerationKind(command) &&
            ' ' !in a.user &&
            (if ' ' in args then args == a.user + " " + a.reason
             else a.user == args && a.reason == "")
  {
    SectionFirstField(args, ' ');
    SectionAfterFirst(args, ' ');
    var i := IndexOf(args, ' ');
    if i != -1 {
      assert args == args[..i] + " " + args[i + 1..];
    }
  }

  /** me and join forward their args unchanged. */
  lemma ForwardingCommands(args: string)
    ensures CommandAction("me", args) == SendEmote(args)
    ensures CommandAction("join", args) == JoinRoom(args)
  {
  }

  /** The canned-text commands send fixed strings whatever their args. */
  lemma CannedCommands(args: string)
    ensures CommandAction("shrug", args) == SendText(Shrug)
    ensures CommandAction("fliptable", args) == SendText(FlipTable)
    ensures CommandAction("unfliptable", args) == SendText(UnflipTable)
    ensures CommandAction("sovietflip", args) == SendText(SovietFlip)
    ensures CommandAction("clearcache", args) == ClearCache
  {
  }

  /** A command does nothing exactly when its name is not recognised. */
  lemma UnknownCommandIgnored(command: string, args: string)
    ensures CommandAction(command, args) == NoAction <==> command !in KnownCommands
  {
  }

  /** The widget's reaction to a submission: a message goes out as text
      (the message signal is wired to sendTextMessage), a command through
      CommandAction. */
  function Dispatch(s: Submission): Action
  {
    match s
    case Message(text) => SendText(text)
    case Command(name, args) => CommandAction(name, args)
  }

  /** End to end: "/kick user reason" with a space-free user asks to kick
      that user with that reason. */
  lemma SubmitModeration(command: string, user: string, reason: string)
    requires command in {"invite", "kick", "ban", "unban"}
    requires ' ' !in user
    ensures Dispatch(ParseSubmission("/" + command + " " + user + " " + reason)) ==
            Moderate(ModerationKind(command), user, reason)
  {
    var args := user + " " + reason;
    var text := "/" + command + " " + user + " " + reason;
    assert text == "/" + command + " " + args;
    ParseCommandRoundTrip(command, args);
    assert ParseSubmission(text) == Command(command, args);
    ModerationIsRequest(command, args);
    ModerationRequestOf(ModerationKind(command), user, reason);
  }

  /** The four moderation names all build a ModerationRequest. */
  lemma ModerationIsRequest(command: string, args: string)
    requires command in {"invite", "kick", "ban", "unban"}
    ensures CommandAction(command, args) == ModerationRequest(ModerationKind(command), args)
  {
  }

  /** Args made of a space-free user, a space and a reason split back into
      that user and that reason. */
  lemma ModerationRequestOf(kind: Moderation, user: string, reason: string)
    requires ' ' !in user
    ensures ModerationRequest(kind, user + " " + reason) == Moderate(kind, user, reason)
  {
    var args := user + " " + reason;
    FirstSpaceIn(user, reason);
    SectionFirstField(args, ' ');
    SectionAfterFirst(args, ' ');
    assert args[..|user|] == user;
    assert args[|user| + 1..] == reason;
  }

  /** End to end: plain text (not starting with '/') is sent as typed. */
  lemma SubmitPlainText(text: string)
    requires |text| == 0 || text[0] != '/'
    ensures Dispatch(ParseSubmission(text)) == SendText(text)
  {
    ParsePlain(text);
  }

  /** In "user reason" with a space-free user, the first space follows the
      user. */
  lemma FirstSpaceIn(user: string, reason: string)
    requires ' ' !in user
    ensures IndexOf(user + " " + reason, ' ') == |user|
  {
    var t := user + " " + reason;
    assert t[|user|] == ' ';
    assert t[..|user|] == user;
  }
}
