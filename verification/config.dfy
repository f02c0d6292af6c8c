/**
 * The server settings (models/config.ts): every field takes the value from
 * the parsed `config.json` or, when that value is absent or null, its
 * default; three consistency checks stop the read part-way with an error.
 */
module Settings {
  import opened Wrappers

  /**
   * The fields of the parsed `config.json` object; None for a field that is
   * absent or null. Values are taken to have the type the settings expect.
   */
  datatype ConfigJson = ConfigJson(
    port: Option<int>,
    generalRoom: Option<string>,
    serverName: Option<string>,
    serverId: Option<string>,
    serverDescription: Option<string>,
    minUsernameLength: Option<int>,
    maxUsernameLength: Option<int>,
    minPasswordLength: Option<int>,
    maxPasswordLength: Option<int>,
    maxMessageLength: Option<int>,
    forbiddenUsernames: Option<seq<string>>)

  /** The object `{}`. */
  const EmptyJson := ConfigJson(None, None, None, None, None, None, None, None, None, None, None)

  /**
   * What reading and parsing the configuration file produced: the text
   * `null` parses to the null value, any other JSON text to an object whose
   * fields are read (a value without those fields reads as `{}`).
   */
  datatype ConfigFile = Unreadable | NotJson | ParsedNull | Parsed(json: ConfigJson)

  /** A file that cannot be read or parsed counts as `{}`; None stands for the null value. */
  function TryReadFromFileJson(file: ConfigFile): (json: Option<ConfigJson>)
    ensures json.None? <==> file.ParsedNull?
    ensures file.Parsed? ==> json == Some(file.json)
    ensures file.Unreadable? || file.NotJson? ==> json == Some(EmptyJson)
  {
    match file
    case Parsed(json) => Some(json)
    case ParsedNull => None
    case _ => Some(EmptyJson)
  }

  const DefaultPort := 9001
  const DefaultGeneralRoom := "general"
  const DefaultServerName := "Chat Server"
  const DefaultServerId := "chat-server"
  const DefaultServerDescription := "A chat server"
  const DefaultMinUsernameLength := 3
  const DefaultMaxUsernameLength := 20
  const DefaultMinPasswordLength := 6
  const DefaultMaxPasswordLength := 128
  const DefaultMaxMessageLength := 1000
  const DefaultForbiddenUsernames: seq<string> := [
    "admin", "administrator", "administration",
    "root", "superuser", "super",
    "moderator", "mod", "moderation", "system"
  ]

  const UsernameBoundsError := "minUsernameLength cannot be greater than maxUsernameLength"
  const PasswordBoundsError := "minPasswordLength cannot be greater than maxPasswordLength"
  const MessageLengthError := "maxMessageLength must be greater than 0"

  /**
   * Why reading the settings stopped: a consistency check threw one of the
   * messages above, or the parsed value was null and reading its first
   * field threw a TypeError.
   */
  datatype Failure = CheckFailed(message: string) | NullDereference

  class Config {
    var port: int
    var generalRoom: string
    var serverName: string
    var serverId: string
    var serverDescription: string
    var minUsernameLength: int
    var maxUsernameLength: int
    var minPasswordLength: int
    var maxPasswordLength: int
    var maxMessageLength: int
    var forbiddenUsernames: seq<string>

    /** The length bounds are ordered and messages may hold at least one character. */
    predicate Consistent()
      reads this
    {
      minUsernameLength <= maxUsernameLength && minPasswordLength <= maxPasswordLength && maxMessageLength >= 1
    }

    /** The field initialisers, before any file is read. */
    constructor ()
      ensures port == 0 && generalRoom == "" && serverName == "" && serverId == "" && serverDescription == ""
      ensures minUsernameLength == 0 && maxUsernameLength == 0
      ensures minPasswordLength == 0 && maxPasswordLength == 0 && maxMessageLength == 0
      ensures forbiddenUsernames == []
    {
      port, generalRoom, serverName, serverId, serverDescription := 0, "", "", "", "";
      minUsernameLength, maxUsernameLength := 0, 0;
      minPasswordLength, maxPasswordLength, maxMessageLength := 0, 0, 0;
      forbiddenUsernames := [];
    }

    /**
     * Assigns the fields in order, stopping with the first failed check; the
     * fields after a failed check keep their earlier values. A null value
     * throws before any field is assigned.
     */
    method ReadFromFile(file: ConfigFile) returns (error: Option<Failure>)
      modifies this
      ensures file.ParsedNull? ==> error == Some(NullDereference) && unchanged(this)
      ensures !file.ParsedNull? ==> var json := TryReadFromFileJson(file).value;
        && port == json.port.GetOr(DefaultPort)
        && generalRoom == json.generalRoom.GetOr(DefaultGeneralRoom)
        && serverName == json.serverName.GetOr(DefaultServerName)
        && serverId == json.serverId.GetOr(DefaultServerId)
        && serverDescription == json.serverDescription.GetOr(DefaultServerDescription)
        && minUsernameLength == json.minUsernameLength.GetOr(DefaultMinUsernameLength)
        && maxUsernameLength == json.maxUsernameLength.GetOr(DefaultMaxUsernameLength)
      ensures !file.ParsedNull? && minUsernameLength > maxUsernameLength ==>
        && error == Some(CheckFailed(UsernameBoundsError))
        && minPasswordLength == old(minPasswordLength) && maxPasswordLength == old(maxPasswordLength)
        && maxMessageLength == old(maxMessageLength) && forbiddenUsernames == old(forbiddenUsernames)
      ensures !file.ParsedNull? ==> var json := TryReadFromFileJson(file).value;
        minUsernameLength <= maxUsernameLength ==>
          && minPasswordLength == json.minPasswordLength.GetOr(DefaultMinPasswordLength)
          && maxPasswordLength == json.maxPasswordLength.GetOr(DefaultMaxPasswordLength)
      ensures !file.ParsedNull? && minUsernameLength <= maxUsernameLength && minPasswordLength > maxPasswordLength ==>
        && error == Some(CheckFailed(PasswordBoundsError))
        && maxMessageLength == old(maxMessageLength) && forbiddenUsernames == old(forbiddenUsernames)
      ensures !file.ParsedNull? ==> var json := TryReadFromFileJson(file).value;
        minUsernameLength <= maxUsernameLength && minPasswordLength <= maxPasswordLength ==>
          && maxMessageLength == json.maxMessageLength.GetOr(DefaultMaxMessageLength)
          && (maxMessageLength < 1 ==> error == Some(CheckFailed(MessageLengthError)) && forbiddenUsernames == old(forbiddenUsernames))
          && (maxMessageLength >= 1 ==> forbiddenUsernames == json.forbiddenUsernames.GetOr(DefaultForbiddenUsernames))
      ensures !file.ParsedNull? ==> (error == None <==> Consistent())
      ensures file.Unreadable? || file.NotJson? ==>
        && error == None
        && port == DefaultPort && generalRoom == DefaultGeneralRoom
        && serverName == DefaultServerName && serverId == DefaultServerId && serverDescription == DefaultServerDescription
        && minUsernameLength == DefaultMinUsernameLength && maxUsernameLength == DefaultMaxUsernameLength
        && minPasswordLength == DefaultMinPasswordLength && maxPasswordLength == DefaultMaxPasswordLength
        && maxMessageLength == DefaultMaxMessageLength && forbiddenUsernames == DefaultForbiddenUsernames
    {
      var read := TryReadFromFileJson(file);
      if read.None? {
        return Some(NullDereference);
      }
      var json := read.value;
      port := json.port.GetOr(DefaultPort);
      generalRoom := json.generalRoom.GetOr(DefaultGeneralRoom);
      serverName := json.serverName.GetOr(DefaultServerName);
      serverId := json.serverId.GetOr(DefaultServerId);
      serverDescription := json.serverDescription.GetOr(DefaultServerDescription);
      minUsernameLength := json.minUsernameLength.GetOr(DefaultMinUsernameLength);
      maxUsernameLength := json.maxUsernameLength.GetOr(DefaultMaxUsernameLength);
      if minUsernameLength > maxUsernameLength {
        return Some(CheckFailed(UsernameBoundsError));
      }
      minPasswordLength := json.minPasswordLength.GetOr(DefaultMinPasswordLength);
      maxPasswordLength := json.maxPasswordLength.GetOr(DefaultMaxPasswordLength);
      if minPasswordLength > maxPasswordLength {
        return Some(CheckFailed(PasswordBoundsError));
      }
      maxMessageLength := json.maxMessageLength.GetOr(DefaultMaxMessageLength);
      if maxMessageLength < 1 {
        return Some(CheckFailed(MessageLengthError));
      }
      forbiddenUsernames := json.forbiddenUsernames.GetOr(DefaultForbiddenUsernames);
      error := None;
    }

    function GetPort(): int reads this { port }
    function GetGeneralRoom(): string reads this { generalRoom }
    function GetServerName(): string reads this { serverName }
    function GetMinUsernameLength(): int reads this { minUsernameLength }
    function GetMaxUsernameLength(): int reads this { maxUsernameLength }
    function GetMinPasswordLength(): int reads this { minPasswordLength }
    function GetMaxPasswordLength(): int reads this { maxPasswordLength }
    function GetMaxMessageLength(): int reads this { maxMessageLength }
    function GetForbiddenUsernames(): seq<string> reads this { forbiddenUsernames }
  }
}
