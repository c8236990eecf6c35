/** The generator's commands and their one-line text form (`Command.to_str`). */
module WorkloadCommands {
  import opened Options

  /** CommandKind, in the enum's declaration order. */
  datatype CommandKind = Write | Read | Delete
  {
    /** CommandKind.to_str: the enum value. */
    function Code(): (c: char)
      ensures c in "wrd"
    {
      match this
      case Write => 'w'
      case Read => 'r'
      case Delete => 'd'
    }
  }

  /** The kind a code letter stands for. */
  function KindOfCode(c: char): (kind: Option<CommandKind>)
    ensures kind.Some? ==> kind.value.Code() == c
    ensures kind.None? ==> c !in "wrd"
  {
    match c
    case 'w' => Some(Write)
    case 'r' => Some(Read)
    case 'd' => Some(Delete)
    case _ => None
  }

  /** Each kind is recovered from its code letter. */
  lemma KindOfCodeRoundTrip(kind: CommandKind)
    ensures KindOfCode(kind.Code()) == Some(kind)
  {
  }

  /** A command: its kind, its key, and the value a write carries. */
  datatype Command = Command(kind: CommandKind, key: string, value: Option<string>)

  /** The value text the line shows: the value, or nothing when it is missing or empty. */
  function ValueField(value: Option<string>): string
  {
    if value.Some? then value.value else ""
  }

  /** Command.to_str: code, key and value separated by single spaces. */
  function ToStr(command: Command): string
  {
    [command.kind.Code()] + " " + command.key + " " + ValueField(command.value)
  }

  /** Where the code, the key and the value sit in a command's line. */
  lemma ToStrShape(command: Command)
    ensures var line := ToStr(command);
      && |line| == 3 + |command.key| + |ValueField(command.value)|
      && line[0] == command.kind.Code() && line[1] == ' '
      && line[2..2 + |command.key|] == command.key && line[2 + |command.key|] == ' '
      && line[3 + |command.key|..] == ValueField(command.value)
  {
  }

  predicate HasNoSpace(s: string)
  {
    forall i :: 0 <= i < |s| ==> s[i] != ' '
  }

  /** Position of the first space in `s`, or |s| when there is none. */
  function FirstSpace(s: string): (i: nat)
    ensures i <= |s| && HasNoSpace(s[..i]) && (i < |s| ==> s[i] == ' ')
  {
    if s == [] then 0
    else if s[0] == ' ' then 0
    else
      var i := 1 + FirstSpace(s[1..]);
      assert s[..i] == [s[0]] + s[1..][..i - 1];
      i
  }

  /**
   * Reading a line back: the code letter, a space, the key up to the next space, and
   * the rest as the value (none when it is empty).
   */
  function Parse(line: string): (command: Option<Command>)
    ensures command.Some? ==> HasNoSpace(command.value.key)
    ensures command.Some? ==> command.value.value != Some("")
  {
    if |line| < 2 || line[1] != ' ' || KindOfCode(line[0]).None? then None
    else
      var rest := line[2..];
      var i := FirstSpace(rest);
      if i == |rest| then None
      else
        var v := rest[i + 1..];
        Some(Command(KindOfCode(line[0]).value, rest[..i], if v == "" then None else Some(v)))
  }

  /** What a line can tell about a command: an empty value reads as no value. */
  function Shown(command: Command): (shown: Command)
    ensures shown.value != Some("")
    ensures ToStr(shown) == ToStr(command)
  {
    if command.value == Some("") then command.(value := None) else command
  }

  /** The line of a command whose key has no space reads back as that command. */
  lemma ParseToStr(command: Command)
    requires HasNoSpace(command.key)
    ensures Parse(ToStr(command)) == Some(Shown(command))
  {
    ToStrShape(command);
    var line := ToStr(command);
    var rest := line[2..];
    var k := |command.key|;
    assert rest[..k] == command.key;
    assert FirstSpace(rest) == k by {
      FirstSpaceAt(rest, k);
    }
    assert rest[k + 1..] == ValueField(command.value);
  }

  /** The first space is at `k` when the `k` characters before it have none. */
  lemma {:induction false} FirstSpaceAt(s: string, k: nat)
    requires k < |s| && s[k] == ' ' && HasNoSpace(s[..k])
    ensures FirstSpace(s) == k
  {
    if k > 0 {
      assert s[0] == s[..k][0];
      assert s[1..][..k - 1] == s[1..k];
      FirstSpaceAt(s[1..], k - 1);
    }
  }

  /** Lines that read back as the same command come from commands that show alike. */
  lemma ToStrInjective(a: Command, b: Command)
    requires HasNoSpace(a.key) && HasNoSpace(b.key)
    requires ToStr(a) == ToStr(b)
    ensures Shown(a) == Shown(b)
  {
    ParseToStr(a);
    ParseToStr(b);
  }
}
