/** The MySQL error classifier: which prepare failures mean "this statement
    cannot be prepared by this driver" (MySQL server error 1295). */
module MySql {
  import opened Base
  import opened GoStrings

  /** The message prefix of MySQL error 1295 as the driver formats it. */
  const PrepareNotSupportedPrefix: string := "Error 1295:"

  /** `isMysqlPrepareNotSupported`: a nil error is never the unsupported kind;
      a non-nil one is exactly when its message begins with the 1295 prefix. */
  predicate IsPrepareNotSupported(err: Option<Error>) {
    err.Some? && HasPrefix(err.value.msg, PrepareNotSupportedPrefix)
  }

  /** The classifier in terms of the message characters: false for nil, true
      iff the first eleven characters spell the prefix. */
  lemma ClassifierByCharacters(err: Option<Error>)
    ensures IsPrepareNotSupported(err) <==>
      err.Some? && |err.value.msg| >= 11 &&
      forall j :: 0 <= j < 11 ==> err.value.msg[j] == "Error 1295:"[j]
  {
    if err.Some? && |err.value.msg| >= 11 &&
       (forall j :: 0 <= j < 11 ==> err.value.msg[j] == "Error 1295:"[j]) {
      assert err.value.msg[..11] == PrepareNotSupportedPrefix;
    }
  }

  lemma NilIsNotUnsupported()
    ensures !IsPrepareNotSupported(None)
  {
  }

  lemma EmptyMessageIsNotUnsupported()
    ensures !IsPrepareNotSupported(Some(Error("")))
  {
  }

  /** The message the MySQL server sends for error 1295: the prefix followed by
      " This command is not supported in the prepared statement protocol yet". */
  const ServerMessage: string :=
    PrepareNotSupportedPrefix + " This command is not supported in the prepared statement protocol yet"

  lemma ServerMessageIsUnsupported()
    ensures IsPrepareNotSupported(Some(Error(ServerMessage)))
  {
    ExtensionIsUnsupported(" This command is not supported in the prepared statement protocol yet");
  }

  /** Any message that extends the prefix is classified as unsupported. */
  lemma ExtensionIsUnsupported(rest: string)
    ensures IsPrepareNotSupported(Some(Error(PrepareNotSupportedPrefix + rest)))
  {
    assert (PrepareNotSupportedPrefix + rest)[..11] == PrepareNotSupportedPrefix;
  }

  /** A message shorter than the prefix, in particular any proper prefix of it
      such as `Error 129`, is not classified as unsupported. */
  lemma ShortMessageIsNotUnsupported(msg: string)
    requires |msg| < |PrepareNotSupportedPrefix|
    ensures !IsPrepareNotSupported(Some(Error(msg)))
  {
  }

  /** A message that differs from the prefix in one of its first eleven
      characters (another error number, say) is not classified as unsupported. */
  lemma OtherCodeIsNotUnsupported(msg: string, j: nat)
    requires j < 11 <= |msg| && msg[j] != PrepareNotSupportedPrefix[j]
    ensures !IsPrepareNotSupported(Some(Error(msg)))
  {
    assert msg[..11][j] == msg[j];
  }
}
