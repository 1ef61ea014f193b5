# A verified model of MySqlBackup

MySqlBackup dumps every database of a MySQL or MariaDB server into one zip a night, thins
out old zips, mirrors the rest to a remote host and can rebuild a server from them. This
project models the parts of it that decide whether a backup is still there when it is
needed, and proves what they guarantee, for all inputs and over whole histories of runs.
`dafny verify dfyconfig.toml` checks all of it.

| file | models |
|---|---|
| `Text.dfy`, `LineScanner.dfy`, `Calendar.dfy`, `Files.dfy` | Go strings; line scanning; civil dates, `AddDate` and the `YYYYMMDD` key; the backup directory, its operations and file names |
| `Retention.dfy`, `RetentionHistory.dfy`, `RetentionLaws.dfy` | the retention loops; what they promise over many nights; how they compare with the documentation |
| `Overwrite.dfy`, `CrashSafety.dfy`, `PartialZips.dfy`, `BackupRun.dfy` | the `.zip`/`.sav` protocol as lists of file operations; crashes anywhere; what stays partial; the code that issues the operations |
| `Transfer.dfy`, `Sync.dfy`, `Convergence.dfy` | encrypted and plain transfer; mirroring; convergence over all histories |
| `UserRecords.dfy`, `UserBlocks.dfy`, `UserBlockLaws.dfy`, `UserNormalForm.dfy`, `SqlLiteral.dfy` | the account dump, its redistribution into one block per database, and SQL literals |
| `UserPatterns.dfy`, `UserPatternLaws.dfy`, `UserNameLaws.dfy`, `UserGrantLaws.dfy`, `UserServerGrants.dfy`, `UserServerAccounts.dfy`, `UserDumpLaws.dfy` | the regular expressions of the account dump, and what they find in the lines of servers and in the statements the program prints |
| `TaskString.dfy`, `Crontab.dfy`, `CommandLine.dfy` | the Windows task command, crontab rewriting, command splitting |
| `Reinit.dfy`, `Nightly.dfy` | full reinitialisation; the nightly sequence from end to end |

How the outside world enters: a directory listing, the order in which Go walks a map, the
fate of an upload, a failing operation, the day and the state of a port are parameters, and
the results hold for all their values. A crash is a prefix of the list of operations a run
issues. The keystream and the key derivation are arbitrary functions. The laws about the
account dump hold for arbitrary patterns, and `UserPatterns.REGEXES` are the program's own.

## Where the code and its documentation differ

- The weekly rule steps forward from the last Sunday, so of the Sundays that have passed it
  keeps only the latest. It agrees with the documentation exactly for counts up to one
  (`RetentionLaws.WeeklyAsDocumented`).
- The month loop visits a month twice when a month on the way back is too short for today's
  day, and stops at December 1999. `RetentionLaws.MonthlyAsDocumented` says exactly when it
  does what is documented; from December 1999 on at most the earliest month-end is missing
  (`RetentionLaws.MonthlyMissesAtMostOne`), as on every 31 March
  (`RetentionLaws.FebruaryIsMissed`).
- The daily rule keeps today and the N days before it (`RetentionLaws.DailyByDay`), and the
  yearly rule no year-end before 2000 (`RetentionLaws.YearlyAsDocumented`).
- With a daily count below -1 a run can delete a backup that a later run would have kept.
  `RetentionHistory.ForgetfulIff` says for which counts.
- Recovery keeps the larger of two files of one name. A complete backup is safe as long as
  sizes tell complete zips from partial ones (`CrashSafety.CrashSafe`); without that it can
  be lost (`CrashSafety.SizesAreNeeded`).
- When the directory cannot be listed, recovery is skipped and the dump goes on. If an
  earlier run left a partial zip, it is moved over the only complete backup
  (`CrashSafety.UnlistedIsLost`); `CrashSafety.SessionIsSafe` says exactly when that happens.
- An existing zip that cannot be examined is written over without being saved: it is lost
  when the run dies or the dump fails (`PartialZips.UnseenIsLost`, `Overwrite.JobAtomic`).
- The first zip of a name has no `.sav`. If the run dies while writing it, the partial zip
  stays for good (`PartialZips.FirstZipStaysPartial`), and is mirrored and offered for
  restoring like any other (`Nightly.PartialIsTaken`).
- Without encryption, an upload that broke off is taken for current ever after
  (`Convergence.PlainConvergesIff`, `Convergence.PlainKeepsTruncated`).
- After a change of the password the copies made before are never replaced
  (`Convergence.OldPasswordStays`), and a backup that is brought back with its old time is not
  sent if another of its size was sent since (`Convergence.RestoredIsWholeIff`,
  `Convergence.RestoredHistory`).
- A local backup that cannot be examined loses its remote copy (`Sync.UnexaminedIsRemoved`).
- A salt that happens to start with `PK` makes an encrypted file come back undecrypted, and
  plain files of 1 to 31 bytes cannot be fetched (`Transfer.EncryptedRoundTrip`,
  `Transfer.PlainRoundTrip`).
- An entry that is already present hides further marked lines of a crontab
  (`Crontab.EnsureLeavesOne`), and every rewriting drops a carriage return at the end of a
  line (`Crontab.RunKeepsOthersIff`, `Crontab.CarriageReturnLost`).
- The legacy task command with backslash-quoted paths is documented as supported and is
  never read (`TaskString.LegacyIsNotRead`).
- Names are escaped when accounts are printed, but not unescaped when a dump is read: exactly
  those that need no escaping are read back (`UserNameLaws.NamesReadBackIff`,
  `UserNameLaws.QuoteCutsName`). A name that opens a password clause is taken for the hash
  (`UserPatternLaws.ClauseInName`).
- Taking a password clause out of a grant can leave another one behind
  (`UserServerGrants.NestedClause`); `UserGrantLaws.GrantRereadsIff` says exactly which grants
  are read back as they were.
- A template inside the data directory is moved away with it, and the reinitialisation fails
  with an empty data directory; if it is the data directory, an empty one counts as success
  (`Reinit.FullReinit`).
- Retention is also run on the local directory that the remote path names, with errors
  only warned about (`Nightly.Backup`).

## Model

| member | source | states |
|---|---|---|
| Calendar.MonthStep | internal/retention/retention.go:172-175 | consecutive months follow each other without gap, each with its Gregorian length, leap years included, for all years |
| Calendar.GregorianMonths | internal/retention/retention.go:172-175 | the length of every month of every year, with the Gregorian leap years |
| Calendar.Anchors | internal/retention/retention.go:154 | where the count of days begins, and that 1 January 2000 was a Saturday |
| Calendar.MonthUnique | internal/retention/retention.go:172-175 | a day lies in exactly one month, so year, month and day of a date are well defined |
| Calendar.CivilOfDate | internal/retention/retention.go:186 | every civil date of the calendar is read back as the same year, month and day |
| Calendar.KeyInjective | internal/retention/retention.go:127-129 | two days with the same YYYYMMDD key are the same day, in every year |
| Calendar.KeyDigits | internal/retention/retention.go:127-129 | the key digit by digit: year, month and day in this order |
| Calendar.KeyRoundTrip | internal/retention/retention.go:70-73 | the date written into a file name is the date parsed from it |
| Calendar.ParseIsKey | internal/retention/retention.go:70-73 | eight digits that parse are the key of the day they parse to |
| Files.BackupNameIsDated | internal/backup/backup.go:43-52 | the zip of a night is recognised by the listing as of that night, and by the mirror exactly if the name has no line break |
| Files.BackupNameInjective | internal/backup/backup.go:51 | different databases have different zips |
| Files.BackupNameSays | internal/backup/backup.go:51 | the name is the prefix, the date, the host and the database in this order |
| Files.NameDateIff | internal/retention/retention.go:62-73 | a name is listed as a backup of a day if and only if it is the prefix, the digits of that day, an underscore, anything and `.zip` |
| Files.IsBackupNameIff | internal/remote/remote.go:34 | a name is mirrored if and only if it has that form, with any eight digits, and no line break |
| Overwrite.SavIsNoBackup | internal/backup/backup.go:148 | a saved zip is neither listed nor mirrored |
| Retention.MonthWalk | internal/retention/retention.go:172 | stepping back by months overflows at most once; the overflowing step stays in its month on a day up to 3, every other step goes back one month |
| Retention.EarlyDaysNeverOverflow | internal/retention/retention.go:172 | up to the 28th the walk visits one month per step |
| Retention.FindLastSunday | internal/retention/retention.go:153-156 | the search ends on a Sunday at most six days back |
| Retention.SundayKeys | internal/retention/retention.go:153-167 | the Sunday search and loop produce exactly the keys of the days of the closed-form weekly rule, and how many these are |
| Retention.SundayByWeek | internal/retention/retention.go:160-167 | week by week from this week's Sunday on, that rule keeps exactly the first N, or one before 2000 |
| Retention.MonthEndKeys | internal/retention/retention.go:169-181 | the month loop, with overflow and the break before 2000, produces exactly the month-ends of an unbroken run of months up to today's; how many these are: N, or N - 1 after an overflow, while the walk stays after November 1999 |
| Retention.YearEndKeys | internal/retention/retention.go:183-188 | the key of the 31 December of a year is produced if and only if the year is one of the last N and not before 2000; there is no other key; and how many there are |
| Retention.KeysDecide | internal/retention/retention.go:190-198 | the decision by cutoff and key maps is the disjunction of the four closed-form rules |
| Retention.ListBackups | internal/retention/retention.go:48-84 | the listing holds each backup of the directory once with its date, in ascending order, and nothing else; files that cannot be examined have size and time zero; an unreadable directory is an error, a missing one is empty |
| Retention.EntrySays | internal/retention/retention.go:74-81 | what an entry of the listing says of its file: name, date, time and size; zero time and size if it cannot be examined |
| Retention.TargetDay | internal/retention/retention.go:98-114 | the search from the end finds the largest date there is, below the limit if one is given |
| Retention.LastBackupBefore | internal/retention/retention.go:86-124 | returns exactly the files of the latest day, or of the latest before the given date, each once |
| Retention.Delete | internal/retention/retention.go:190-204 | exactly the listed files the rules do not keep, and whose deletion works, are removed |
| Retention.Apply | internal/retention/retention.go:135-206 | leaves everything that is not a backup, every backup a rule keeps and those that could not be deleted, and no other backup; changes no file, and nothing at all if the directory is unreadable |
| RetentionHistory.KeepRulesAntitone | internal/retention/retention.go:147-198 | each of the four rules that keeps a day on a later night keeps it on every earlier night since that day |
| RetentionHistory.KeepAntitone | internal/retention/retention.go:147-198 | what a later night keeps an earlier one keeps, also for days after the earlier night unless the counts are forgetful |
| RetentionHistory.NothingKeptIsLost | internal/retention/retention.go:135-206 | after any sequence of nights, whatever deletions failed, all files the last night's rules keep are there in their last version |
| RetentionHistory.HistoryIndependent | internal/retention/retention.go:131-206 | any sequence of nights leaves exactly what one run on the last night would leave of all files there ever were, if no file is from the future or the counts are not forgetful |
| RetentionHistory.ForgetfulIff | internal/retention/retention.go:150-198 | an earlier night deletes a day a later one would keep, for some nights since 2000, if and only if the daily count lies below a bound given by the other counts: 6 - 7N for N weeks, -28 with months, -365 with years |
| RetentionHistory.SecondSufficesIff | internal/retention/retention.go:135-206 | two nights leave of every directory what the second alone would, if and only if the first deletes no day a file name can carry that the second keeps |
| RetentionHistory.FutureFilesNeedDailyCount | internal/retention/retention.go:192 | for every daily count below -1, with one week to keep, the run of 4 January 2025 deletes a backup dated the 5th that the run of the 5th alone would keep |
| RetentionLaws.WeeklyKeepsOneSunday | internal/retention/retention.go:155-167 | of the days up to today the weekly rule keeps exactly the latest Sunday |
| RetentionLaws.WeeklyAsDocumented | internal/retention/retention.go:133 | it keeps the last N Sundays if and only if N is at most one |
| RetentionLaws.MonthlyAsDocumented | internal/retention/retention.go:133 | the monthly rule keeps the last N month-ends if and only if no month on the way is too short for today's day and the walk stays after November 1999 |
| RetentionLaws.FebruaryIsMissed | internal/retention/retention.go:172-181 | on 31 March of every year a count of two does not keep the end of February, which is documented to be kept |
| RetentionLaws.MonthlyMissesAtMostOne | internal/retention/retention.go:172-181 | for month-ends from December 1999 on, at most the earliest of the N is missing, whatever the day |
| RetentionLaws.DailyByDay | internal/retention/retention.go:150-151 | the daily rule keeps the day i days back if and only if i is at most N |
| RetentionLaws.YearlyAsDocumented | internal/retention/retention.go:133 | the yearly rule keeps the last N year-ends if and only if none of them lies before 2000 |
| RetentionLaws.LastDayIsMonthEnd | internal/retention/retention.go:34-37 | the next-day test holds exactly on the last day of a month |
| RetentionLaws.ClassifyMatchesRules | internal/retention/retention.go:19-32 | a day is kept on its own night by the rule of the period it is announced as, and a daily one by no other rule |
| RetentionLaws.PeriodOf | internal/retention/retention.go:19-32 | the announced period of every civil date |
| Overwrite.JobEffect | internal/backup/backup.go:144-196 | what writing one zip comes to from every directory, with whatever is left over under `.sav`, for every kind of failure |
| Overwrite.JobAtomic | internal/backup/backup.go:144-196 | with nothing left over, writing one zip ends, wherever it fails, in the new zip replacing the old one or in the directory as it was, if and only if it does not fail after writing over a zip that could not be examined |
| Overwrite.RunEffect | internal/backup/backup.go:50-86 | what a run comes to from every directory: the new zips of the databases before the first failing one, without their saved files, and what the failing one leaves |
| Overwrite.RunAtomic | internal/backup/backup.go:50-86 | with nothing left over for its databases, a run changes the directory exactly by the new zips of the databases before the first failing one, and leaves every `.sav` as it was, if and only if the failing one does not lose a zip that could not be examined |
| Overwrite.AllDoneIff | internal/backup/backup.go:50-85 | for distinct databases, all are dumped if and only if none fails and no old zip that is seen cannot be moved |
| Overwrite.AtomicPerDatabase | internal/backup/backup.go:50-86 | for distinct databases: new zips before the failing one, every other file unchanged, the failing database's included unless it is lost in this way |
| Overwrite.RecoverSettles | internal/backup/backup.go:88-139 | recovery, in any listing order, leaves the larger of `.zip` and `.sav` as zip, the saved one on a tie, and touches nothing else |
| Overwrite.RecoverNamed | internal/backup/backup.go:88-139 | recovery settles every name it does not have to pass over and leaves the files of the others as they were |
| Overwrite.RecoverAll | internal/backup/backup.go:88-139 | after recovery that passes nothing over no `.sav` is left and every zip is settled |
| CrashSafety.JobOfSame | internal/backup/backup.go:144-196 | cut off after any operation of rewriting a zip, a complete backup of it is there under `.zip` or `.sav`, if the old zip, when it is seen, is complete, or the `.sav` beside one that is not seen |
| CrashSafety.FirstOpLoses | internal/backup/backup.go:148-154 | otherwise the first operation already leaves no complete backup |
| CrashSafety.RunIsSafe | internal/backup/backup.go:50-86 | a whole run, cut off anywhere, keeps a complete backup if and only if every database it gets to meets that condition |
| CrashSafety.SparesIff | internal/backup/backup.go:50-86 | if old zips are seen, that is: the run finds no partial file in the place of the zip or does not get to overwriting it |
| CrashSafety.RecoveryIsSafe | internal/backup/backup.go:90-139 | the same for recovery |
| CrashSafety.SessionIsSafe | internal/backup/backup.go:31-86 | recovery and run together, cut off anywhere, keep a complete backup if and only if what recovery leaves meets that condition |
| CrashSafety.GuardedIff | internal/backup/backup.go:31-86 | if old zips are seen, that is: recovery got to the name, or there was no partial file in the place of the zip, or it is not overwritten |
| CrashSafety.CrashSafe | internal/backup/backup.go:31-196 | once a complete backup exists it exists in every state reachable by any number of runs each dying anywhere, the directory listed or not, if sizes separate complete from partial zips and each run meets that condition |
| CrashSafety.UnlistedIsLost | internal/backup/backup.go:94-98 | a run that dies while overwriting and a start that cannot list the directory lose the only complete backup, whatever the sizes |
| CrashSafety.RecoveryKeepsLarger | internal/backup/backup.go:121-137 | recovery keeps a complete file of two if and only if the larger one is complete |
| CrashSafety.SizesAreNeeded | internal/backup/backup.go:121-137 | without the size condition two runs lose the only complete backup |
| PartialZips.WholeIff | internal/backup/backup.go:31-196 | after a run from a clean directory, cut off anywhere, every zip is complete if and only if its last operation did not write a partial one |
| PartialZips.LoneZipStays | internal/backup/backup.go:90-139 | a zip without a `.sav`, complete or not, is left as it is by every later run that does not dump under its name, cut off anywhere |
| PartialZips.FirstZipStaysPartial | internal/backup/backup.go:154-196 | a run that dies after creating the first zip of a name, or one over a zip that it cannot examine, leaves it partial through all later runs of other days |
| PartialZips.UnseenIsLost | internal/backup/backup.go:148-154 | so the only backup of a name is lost when it cannot be examined and the run dies right after creating the new one |
| BackupRun.RecoverSavFiles | internal/backup/backup.go:90-139 | issues exactly the recovery operations, none if the directory is unreadable and none for names it has to pass over |
| BackupRun.Begin | internal/backup/backup.go:148-171 | saves the old zip, if it can be examined, and creates the new one, or undoes the saving; fails exactly on a failing rename or create |
| BackupRun.BackupOne | internal/backup/backup.go:50-84 | issues exactly the operations of one database, for every kind of failure |
| BackupRun.DumpAll | internal/backup/backup.go:50-85 | issues the operations of all databases up to the first failure and returns the paths of the zips made |
| BackupRun.Run | internal/backup/backup.go:31-86 | issues exactly recovery followed by the databases, reports the first failing one, else all paths |
| Transfer.CopyThrough | internal/remote/remote.go:227-229 | encryption through the stream writer is the same for every way of cutting the data into chunks |
| Transfer.ConcatJoins | internal/remote/remote.go:227-229 | the data is its chunks in the order in which they come |
| Transfer.StreamEncryptUpload | internal/remote/remote.go:206-230 | sends the salt, the nonce, and each byte combined with the keystream of that nonce and of the key derived from the password and the salt; the remote file is 32 bytes longer |
| Transfer.CipherText | internal/remote/remote.go:215-229 | the same of every encrypted upload |
| Transfer.GetOneFile | internal/remote/remote.go:345-395 | saves the file as it is, or each byte behind the first 32 combined with the keystream of the nonce and the key derived from the password and the salt that these are, for every way the rest arrives; which error is reported when; a copy that breaks off leaves exactly the beginning that arrived |
| Transfer.PlainText | internal/remote/remote.go:359-380 | the decrypted bytes of every encrypted file |
| Transfer.EncryptedRoundTrip | internal/remote/remote.go:206-230 | an encrypted upload is downloaded as the original if and only if its salt does not start with PK |
| Transfer.PlainRoundTrip | internal/remote/remote.go:355-394 | a plain file is downloaded unchanged if and only if it is empty, or at least 32 bytes long and, with a password set, starts with PK |
| Sync.ListZips | internal/remote/remote.go:125-153 | lists exactly the names that match the backup pattern and can be examined |
| Sync.LocalListByName | internal/remote/remote.go:155-162 | finds a name if and only if it is in the list |
| Sync.UploadNeeded | internal/remote/remote.go:95-111 | uploads in order what is missing, older or, encrypted, of the wrong size, and stops at the first failure |
| Sync.UploadsFailIff | internal/remote/remote.go:95-111 | the upload loop fails if and only if some needed upload does |
| Sync.RemoveOrphans | internal/remote/remote.go:112-121 | removes exactly the remote backups without local counterpart whose removal works |
| Sync.Synchronise | internal/remote/remote.go:53-123 | which error is reported when, what the remote directory is afterwards, local files that cannot be examined counting as absent, and that nothing is written when both sides agree |
| Sync.UploadsComplete | internal/remote/remote.go:95-111 | without an error every needed file was uploaded whole and every other one left alone |
| Sync.SyncMirrorsNames | internal/remote/remote.go:51-123 | an error-free run makes the backup names of both sides equal up to failed removals, removes no local name and touches nothing else |
| Sync.UnexaminedIsRemoved | internal/remote/remote.go:141-144 | a local backup that cannot be examined loses its remote copy |
| Sync.FailedSyncRemovesNothing | internal/remote/remote.go:104-121 | if an upload fails nothing is removed |
| Sync.SyncIsStable | internal/remote/remote.go:95-121 | a second run on unchanged files has nothing to do |
| Convergence.StepKeeps | internal/remote/remote.go:95-111 | every writing and deleting of a local file, and every attempt, broken off anywhere or blind for some files, keeps remote copies older than the local file, the beginning of an upload of it, or of another size; so does bringing back a file with its old time, on condition that this holds of it then |
| Convergence.EncryptedIsWhole | internal/remote/remote.go:95-111 | after any history of these, with plain uploads and any passwords in it, in which no file is brought back that a copy of another file can be taken for, one error-free encrypted run leaves every local backup it can examine as a whole encrypted upload of its present bytes, under a password that was used |
| Convergence.EncryptedConverges | internal/remote/remote.go:95-111 | with one password throughout such a history, it is a whole upload under that password |
| Convergence.OldPasswordStays | internal/remote/remote.go:97-103 | after a change of password a copy of the right size, not older than the file, stays as it is in every directory, and is readable with the new one if and only if the keystreams agree |
| Convergence.RestoredIsWholeIff | internal/remote/remote.go:95-111 | that condition is exact: the next error-free encrypted run makes the copy of a file that was brought back whole if and only if there was no later copy of its size that is no upload of it |
| Convergence.RestoredIsNotSent | internal/remote/remote.go:97-103 | a file brought back with the size and at most the time of what was uploaded in its place is not sent, and the copy is read as the other file |
| Convergence.RestoredHistory | internal/remote/remote.go:97-103 | a first night on which that happens: a file is replaced by one of its size, that is uploaded, the first is brought back, and an error-free run leaves a copy that is downloaded as the second |
| Convergence.PlainConvergesIff | internal/remote/remote.go:95-111 | without encryption, after such a history, exactly the files with a shorter, later-stamped copy stay wrong |
| Convergence.PlainKeepsTruncated | internal/remote/remote.go:97-103 | such a file: one broken-off plain upload is never repaired |
| UserRecords.UserRecord.AddHostEntry | internal/backup/usersql.go:98-104 | a host is entered once |
| UserRecords.UserRecord.SetHash | internal/backup/usersql.go:106-120 | the first hash of a host and of the user stay; a different later one is reported |
| UserRecords.UserRecord.HasDifferentPasswords | internal/backup/usersql.go:122-137 | true if and only if two hosts have different hashes, in whatever order the map is walked |
| UserRecords.ParseUserRecords | internal/backup/usersql.go:139-203 | one record per named user, equal to the fold of the lines about the user |
| UserRecords.RecordSays | internal/backup/usersql.go:139-203 | a record holds exactly the hosts named with the user, each once, the first hash overall and per host, the grants in order and their databases |
| UserBlocks.ParagraphText | internal/backup/usersql.go:229-260 | prints one account statement per host and then the grants on the database |
| UserBlocks.UserNames | internal/backup/usersql.go:275-290 | lists each account once as user@host |
| UserBlocks.ParseUserSQL | internal/backup/usersql.go:205-273 | on the text of a dump: the text of each database is its block, for every order of users and databases, and there is one exactly for the databases with grants; the accounts listed are those the dump names |
| UserServerAccounts.HashIsPrinted | internal/backup/usersql.go:209-273 | in the text of a database every account of a user with a grant on it is created with the first hash the dump gives for the user, and the grant is there |
| UserServerAccounts.CreateSays | internal/backup/usersql.go:229-246 | the account statement word by word, with and without a hash |
| UserBlockLaws.GrantsConserved | internal/backup/usersql.go:192-199 | the grants printed for a database are exactly the grants of the dump on it, each as often as there, for every walk order |
| UserBlockLaws.BlockHasEmitted | internal/backup/usersql.go:247-260 | these grants are what stands behind the account statements of the paragraphs |
| UserBlockLaws.CreateReadsBack | internal/backup/usersql.go:230-246 | a server reads each account statement as the user, host and hash it was printed for, whatever characters they hold |
| UserBlockLaws.ReplaySafe | internal/backup/usersql.go:230-260 | each grant follows the statement creating the account it grants to, and each account is created once |
| UserBlockLaws.OrderDoesNotMatter | internal/backup/usersql.go:216-271 | two walk orders give the same paragraphs up to their order |
| UserNormalForm.BlockTextLines | internal/backup/usersql.go:265-269 | the text of a block is its statements line by line, with a blank line between paragraphs |
| UserNormalForm.BlockScans | internal/backup/usersql.go:142-149 | the scanner finds in that text exactly these lines |
| UserNormalForm.RereadBlock | internal/backup/usersql.go:142-203 | the text of a block, scanned as a dump, gives its users the same hosts, password and grants, and no other users, if the patterns read statements as they were printed |
| UserNormalForm.BlocksAreNormal | internal/backup/usersql.go:209-273 | printing the text of a block read back gives the same paragraphs, for all walk orders, under the same condition |
| UserPatternLaws.CreateIsReread | internal/backup/usersql.go:29-42 | the program's own patterns read its account statements as the account they create, for all names and hashes without single quote or backslash whose names do not hold IDENTIFIED BY PASSWORD and an opening quote |
| UserPatternLaws.QuotelessIsUnopened | internal/backup/usersql.go:34-35 | names without any quotes meet that condition, whatever words are in them |
| UserPatternLaws.ClauseInName | internal/backup/usersql.go:34-35 | a name that does open a clause is taken for the hash |
| UserNameLaws.BackslashIsDoubled | internal/backup/usersql.go:292-295 | names without single quotes are read back from their own statement if and only if they have no backslash |
| UserNameLaws.NamesReadBackIff | internal/backup/usersql.go:29-42 | all trimmed names, whatever quotes they hold, are read back from their own statement if and only if they have neither single quote nor backslash, given a hash without double quotes and backticks |
| UserNameLaws.HashMisleads | internal/backup/usersql.go:29-42 | a hash that holds an account in double quotes: a name that needs escaping is then read back |
| UserNameLaws.QuoteCutsName | internal/backup/usersql.go:29-42 | a single quote in a user name cuts off what stands before it when its own statement is read |
| UserGrantLaws.GrantIsReread | internal/backup/usersql.go:29-42 | in the printed form of a grant without password clause the patterns find the same account and database, and printing it again changes nothing |
| UserGrantLaws.GrantRereadsIff | internal/backup/usersql.go:247-260 | the statement printed for any line is found again as a grant of the same account on the same database, with nothing left to strip, if and only if the line without its password clauses is one and has no clause left |
| UserGrantLaws.ClauselessIsSame | internal/backup/usersql.go:38-42 | grants without a password clause meet that condition |
| UserGrantLaws.ClauseIsStripped | internal/backup/usersql.go:38-42 | behind any text that opens no clause, stripping takes out a password clause with the blank before it, and nothing else |
| UserServerGrants.ServerGrantIsRead | internal/backup/usersql_test.go:56-95 | a grant of any privileges, each name in quotes of any kind or without, is read as its database and account, with or without a password clause and options behind it; a star is no database |
| UserServerGrants.GrantIsStripped | internal/backup/usersql.go:247-260 | such a grant with a password clause, in quotes of any kind, is printed without it |
| UserServerGrants.ClauseGrantIsSame | internal/backup/usersql.go:247-260 | it meets the condition for being read back if and only if there is no clause in its host and what follows, once the clause is taken out |
| UserServerGrants.PlainGrantIsSame | internal/backup/usersql_test.go:56-95 | so do all grants whose names have no quotes in them and do not start with @, each in quotes of any kind or bare, whatever options follow that bring no clause of their own |
| UserServerGrants.NestedClause | internal/backup/usersql.go:38-42 | a line that does not: the halves of one clause around another |
| UserServerAccounts.CharacterClasses | internal/backup/usersql.go:29-42 | the characters the patterns take for blanks, for parts of a name and for quotes |
| Text.SpaceCodes | internal/backup/usersql.go:148 | the characters that are trimmed off |
| UserServerAccounts.KindAnyCase | internal/backup/usersql.go:152-173 | account lines and grants are known by their first words in any case |
| UserServerAccounts.AccountAnyhow | internal/backup/usersql.go:33 | an account is found with its names in quotes of any kind or bare and any blanks around the @ |
| UserServerAccounts.DatabaseAnyhow | internal/backup/usersql.go:37 | a database is found behind ON in any case, with any blanks before it and around its dot |
| UserServerAccounts.ClauseAnyhow | internal/backup/usersql.go:35-41 | a password clause in any case, with any blanks and in quotes of any kind, is read as its hash and taken out with the blanks before it |
| UserServerAccounts.ServerAccountIsRead | internal/backup/usersql_test.go:8-14 | a line creating an account, with or without IF NOT EXISTS, each name in quotes of any kind or bare, is taken for an account line and read as that account |
| UserServerAccounts.ServerHashIsRead | internal/backup/usersql.go:153-170 | the hash of a password clause behind it is read as the password |
| UserServerAccounts.NoHashIsRead | internal/backup/usersql.go:153-170 | without a clause there is no password |
| UserServerAccounts.ServerDumpIsPrinted | internal/backup/usersql_test.go:8-42 | an account line with a hash and a grant give a block that creates the account with that hash and has the grant |
| UserDumpLaws.FoundOneLine | internal/backup/usersql.go:43-59 | names and hashes found in a line are trimmed and on one line |
| UserDumpLaws.DumpsAreNormal | internal/backup/usersql.go:139-273 | with the program's own patterns, the text printed for a database is a normal form for every dump whose names and hashes need no escaping and open no password clause, and whose grants on it meet the condition for being read back |
| SqlLiteral.TwoPassesAreOne | internal/backup/usersql.go:292-295 | the two replacement passes equal one pass over the characters |
| SqlLiteral.LiteralRoundTrip | internal/backup/usersql.go:292-295 | by section 9.1.1 of the MySQL 8.0 Reference Manual a quoted string is read as itself up to exactly its closing quote, if and only if no quote follows |
| TaskString.ExtractDoubleQuoted | internal/schedule/schedule.go:178-198 | returns content and rest of a double-quoted text with doubled quotes, or fails without an opening or closing quote |
| TaskString.QuotedRoundTrip | internal/schedule/schedule.go:352 | every quoted path is read back up to its closing quote |
| TaskString.PlannedSays | internal/schedule/schedule.go:350-354 | the stored command word by word, with quotes in paths doubled |
| TaskString.CommandRoundTrip | internal/schedule/schedule.go:352-354 | the stored command is read as the executable and configuration it was built from, for all paths |
| TaskString.ShortCommandRoundTrip | internal/schedule/schedule.go:106-129 | so is the same command behind `cmd` without its suffix |
| TaskString.ExtractBackslashQuotedPaths | internal/schedule/schedule.go:200-225 | the nested loops compute the texts from each escaped quote to the next closing one |
| TaskString.BackslashPath | internal/schedule/schedule.go:200-225 | a path between a backslash-quote and the next quote is found as it is, and the character behind that quote is passed over |
| TaskString.FindClosingQuote | internal/schedule/schedule.go:143-149 | finds the first matching quote without a backslash before it, or that there is none |
| TaskString.LegacyIsNotRead | internal/schedule/schedule.go:87-141 | the legacy command is read by none of the formats, for all paths without quotes |
| TaskString.DirectRoundTrip | internal/schedule/schedule.go:142-174 | the direct format is read back for all paths without their quotes, of either kind, that do not end in a backslash |
| TaskString.WindowsTaskGetCommand | internal/schedule/schedule.go:88-176 | returns the first command, in any of the three formats, in the scheduler's listing |
| TaskString.TaskIsRead | internal/schedule/schedule.go:94-174 | the line of a task is read as its command is, with any blanks around, wherever it stands behind lines without a command |
| TaskString.TaskRoundTrip | internal/schedule/schedule.go:94-129 | our task's line is read there as the paths it was built from |
| TaskString.OlderRoundTrip | internal/schedule/schedule.go:130-174 | and so are lines in the direct format and in the older one with backslashes before the opening quotes only |
| Crontab.EnsureEntry | internal/schedule/schedule.go:512-546 | the loop computes the rewritten crontab, or nothing if the entry is present |
| Crontab.RemoveEntry | internal/schedule/schedule.go:685-706 | the loop computes the unmarked lines, or nothing without a marker |
| Crontab.EnsuredLines | internal/schedule/schedule.go:516-543 | a new crontab has exactly one marked line, our entry, and the other lines of the old one in order, scanned once more |
| Crontab.EnsureIdempotent | internal/schedule/schedule.go:519-524 | ensuring twice is ensuring once, for every crontab |
| Crontab.EnsureLeavesOne | internal/schedule/schedule.go:519-532 | exactly one marked line is left if and only if the entry was not already there beside another |
| Crontab.SecondMarkedStays | internal/schedule/schedule.go:519-524 | the entry before another marked line: nothing is changed and both stay |
| Crontab.RemovedLines | internal/schedule/schedule.go:687-703 | removal leaves no marked line and is a change exactly if there was one |
| Crontab.EntryIsReplaced | internal/schedule/schedule.go:519-532 | line by line: an old entry is replaced where it stands, further ones are dropped, removing takes out all of them, and no other line is touched |
| Crontab.EntryIsAppended | internal/schedule/schedule.go:537-541 | without an old entry the new one is appended, and there is nothing to remove |
| Crontab.RemovedAfterEnsure | internal/schedule/schedule.go:685-706 | removing after ensuring leaves the unmarked lines, scanned once more unless the entry was there already |
| Crontab.RemoveAfterEnsure | internal/schedule/schedule.go:685-706 | it gives back exactly the unmarked lines if and only if the entry was there already or none of them still ends in a carriage return |
| Crontab.CarriageReturnLost | internal/schedule/schedule.go:685-706 | a line ending in two carriage returns comes back without them |
| Crontab.RunInvariant | internal/schedule/schedule.go:503-547 | any sequence of ensuring and removing leaves at most one marked line once anything was written, and all other lines in order, scanned once more for each writing |
| Crontab.RunKeepsOthersIff | internal/schedule/schedule.go:503-547 | it leaves the other lines exactly as they were if and only if nothing was written or none of them, as scanned, still ends in a carriage return |
| Crontab.CronLineIsEntry | internal/schedule/schedule.go:501-504 | the lines built for newline-free paths meet the conditions of these laws |
| Crontab.CronLineSays | internal/schedule/schedule.go:503-504 | the fields of the line are the minute, the hour and three stars, and the rest is the command with its paths and the marker, in the system file behind the user |
| Crontab.QuotedForCron | internal/schedule/schedule.go:501-502 | a path stands between single quotes, and a quote in it behind a backslash |
| CommandLine.SplitCommandLine | internal/run/run.go:194-217 | the loop computes the split of the laws below: no part is empty, and no text is lost but quotes and outer blanks |
| CommandLine.SplitConserves | internal/run/run.go:194-217 | no part is empty, and the parts together are the text without quotes and without blanks outside quotes |
| CommandLine.GaplessIsOne | internal/run/run.go:194-217 | text without a blank outside quotes is one part without its quote characters, bare and quoted text joined |
| CommandLine.BlankEndsPart | internal/run/run.go:194-217 | a blank outside quotes ends a part: what is before and behind it is split each for itself |
| CommandLine.SplitRoundTrip | internal/restore/restore.go:260-283 | words, bare or in either kind of quotes and any blanks apart, are split into just these words |
| Reinit.WaitForPortState | internal/restore/restore.go:285-295 | succeeds if and only if the wanted state is seen in time, and that is then the last thing seen |
| Reinit.CopyDir | internal/restore/restore.go:151-202 | writes only the target, also if it breaks off within a file; succeeds exactly if nothing fails and there is a template, or the two are one; the target is then the copy of the template, with its directories, links, contents and permissions less those the process withholds |
| Reinit.CopyIsSame | internal/restore/restore.go:151-202 | that copy has the paths, links and contents of the template, its permissions less those withheld, and is equal to it if none are |
| Reinit.StopServer | internal/restore/restore.go:116-127 | which error is reported when; without an error the port was last seen closed and no directory has changed |
| Reinit.Preflight | internal/restore/restore.go:89-114 | each refusal and its condition, in order, and when there is none |
| Reinit.VerdictsSay | internal/restore/restore.go:116-148 | each way stopping and starting the server can end, and its condition |
| Reinit.FullReinit | internal/restore/restore.go:88-149 | data is moved if and only if no check, stop or rename fails, and the first that fails is reported; every event keeps the discipline below; when the copy breaks off; after it data is a copy of the configured template, or of the directory beside data if none is configured; which commands are given; how the start ends; success means the port is open |
| Reinit.OriginalNeverLost | internal/restore/restore.go:107-136 | at every moment of a disciplined run, also if cut off, the original tree is untouched in place or intact under `.old`, and all paths outside it are unchanged |
| Reinit.StartedOnCopy | internal/restore/restore.go:129-145 | the server is started after the move, and from then on no directory is changed |
| Reinit.MoveAfterClosedPort | internal/restore/restore.go:116-132 | the one move is made when the port was last seen closed |
| Nightly.HostnameForFile | internal/backup/backup.go:19-27 | the host part of a file name is nonempty: `localhost` for no name, and otherwise the name with every unsafe character replaced by an underscore |
| Nightly.FileChars | internal/backup/backup.go:25 | which characters are safe |
| Nightly.StageAfterDump | internal/backup/backup.go:31-86 | a complete dump leaves every zip of the night as closed, however far recovery got, whatever was left over and whether the directory was listed or not; nothing is newer if nothing was |
| Nightly.StageAfterRetention | internal/retention/retention.go:150-206 | retention keeps these zips while the daily count covers the midnights crossed since |
| Nightly.RetentionOn | internal/retention/retention.go:208-222 | one retention pass prunes a readable directory, leaves an unreadable one, and keeps the zips of the night |
| Nightly.StageDelivered | internal/remote/remote.go:95-121 | an error-free mirror run delivers every zip that is there, has no line break in its name and can be examined |
| Nightly.SyncedMirrors | internal/remote/remote.go:95-121 | after an error-free mirror run every backup that can be examined is on the remote side, whole if an upload was needed and as it was if not; other backups there could not be removed; all other files are as they were |
| Nightly.SyncedBrokeOff | internal/remote/remote.go:95-111 | after one with a failing upload nothing is removed, and only beginnings of needed uploads are written |
| Nightly.PartialIsTaken | internal/retention/retention.go:86-124 | a zip of the newest day, complete or not, is among the files a restore takes and is mirrored |
| Nightly.Backup | internal/run/run.go:28-116 | when the run is aborted, has nothing to do, fails in the dump or in the mirror, or finishes; what each of these leaves in the backup directory, in the second one retention runs on and on the remote side, which is the mirror above after a finished run and untouched if none is configured; after a finished run in which the daily count covers the midnights crossed, every zip of the night has survived retention, is among the files of the latest day unless a file was dated later, and is on the remote side if the mirror can see it, as a whole upload if the copy there was older |

## Left out

- SSH, SFTP, SMTP, child processes, PowerShell, schtasks and systemd: only the result the code branches on is kept, as a parameter.
- Configuration, messages, logging, disk check and flag handling: thin wrappers.
- The line limit of `bufio.Scanner`: no line of a dump or crontab is too long.
- Invalid UTF-8 in dumps: text is a sequence of characters.
- AES, PBKDF2 and the zip format: an arbitrary keystream, and a flag on files telling whole backups from partial ones.
- Time zones and daylight saving: all compared times are local midnights, modelled as days.
- `GetFile`: the choice of remote files by wildcard and the `.lokal` suffix are not part of this model.
- Removals and renames that fail in `finish` and `cancel`, a `.sav` that cannot be examined there, and a rename that fails in recovery after the removal before it: crash safety assumes that these succeed.
- Sync.Synchronise: a failing directory creation is only a warning and has no effect in the model.
- UserNameLaws.NamesReadBackIff: hashes with double quotes or backticks are left out; an account in them can be found instead (UserNameLaws.HashMisleads).
- UserBlocks.ParseUserSQL: the warnings go to the log and are not modelled.
- Crontab.EnsureEntry: the start time is given as numbers, and reading and writing the crontab is left to the caller.
- `quoteForCron` as shell quoting: its escape differs from its own comment.
- Reinit.CopyDir: devices, sockets and pipes in a tree are not represented.
- Reinit.FullReinit: paths are cleaned names, and a data directory inside the template, which the walk would copy into itself, is not represented.
- Nightly.Backup: starting MySQL is one of the ways the run can stop early, and that it is stopped again afterwards is not represented; several early returns skip that step.
