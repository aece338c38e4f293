/** The result shapes of the backup-code operations. */
module BackupCodeTypes {

  /** An optional field: `None` is an absent field, which is not the same as
      a present empty list. */
  datatype Option<T> = None | Some(value: T)

  /** What generation returns: the plaintext codes and, at the same
      positions, their digests. */
  datatype BackupCode = BackupCode(backupCodes: seq<string>, hashedCodes: seq<string>)

  /** What validation returns: whether the code was accepted and, only when
      it was, the digests that remain usable. */
  datatype UpdatedBackupCode = UpdatedBackupCode(status: bool, backupCodes: Option<seq<string>>)
}
