# neolith in Dafny: the Hotline wire layer and server state

This project models the core of neolith, a Hotline server written in Rust. It covers:

- **TRTP wire layer.**
  - The 12-byte client handshake and the 8-byte server reply.
  - The 20-byte transaction header and the parameter body.
  - The frame reader and writer.
  - The typed views of parameters: credentials, ids, file paths, dates and the login request.
  - The AppleSingle header.
- **Server stores.**
  - The user list, the chat rooms and the pending-transfer table.
  - The news board.
  - Path confinement under the shared root, and listing metadata.
- **Server policy.**
  - The 64-bit account permission word and how it is read back.
  - The account editor's validators.
  - The connection state machine, the login exchange and reply dispatch.
  - Notification delivery and chat creation.

Every operation is a pure function on immutable datatypes. Bytes are `seq<uint8>`. Fixed-width integers are ranges of `int`, and two's-complement casts are written out (`Wire.Wrap`, `Wire.ToUnsigned`).

The streaming parsers return `Result<Parsed<T>, ParseError>`:

- `Incomplete` when more input is needed;
- `Mismatch` when the input is wrong;
- otherwise the value together with the unconsumed tail.

Each decoder has its encoder as partner. A round-trip lemma states that decoding an encoding followed by any bytes gives the value back and leaves those bytes untouched.

The stores are values, so each mutation returns the new store. Contracts state what changes and that nothing else does. Sockets, tasks, the notification bus, the filesystem, the text encodings and the interactive prompts become parameters of the functions that need them.

Modules follow the source layout:

| module | source |
|---|---|
| `Wire` | streaming and integer primitives |
| `Protocol`, `Handshake`, `Transactions`, `TransactionTypes`, `TransactionFields` | the `protocol` module |
| `Parameters`, `Dates` | parameter views and dates |
| `Requests` | request decoders of the protocol's `mod.rs` |
| `LoginVector` | the login test vector |
| `Frames` | frame reader and writer |
| `Apple` | the AppleSingle header |
| `Users`, `Chat`, `Transfers`, `News`, `Files`, `ChatMessages` | server stores |
| `Paths` | the component algebra of `PathBuf` |
| `Permissions` | the account permission word |
| `UserEditor` | the account editor's rules |
| `Server` | the per-connection logic of the server binary |

## Model

| member | source | states |
|---|---|---|
| Wire.DecodeEncodeInt | src/protocol/transaction.rs:57-79 | A signed integer that fits n bytes, written big-endian in two's complement, reads back unchanged. |
| Wire.EncodeDecodeInt | src/protocol/transaction.rs:57-79 | Any n bytes read as a signed integer re-encode to the same bytes, so the integer codec is a bijection. |
| Wire.Wrap | src/server/users.rs:15 | The truncating `as i16` cast keeps the low bytes' bit pattern, always lands in range, and is the identity on values already in range. |
| Wire.Tag | src/protocol/handshake.rs:95-106 | The streaming `tag` succeeds exactly when the input starts with the tag. It is `Incomplete` exactly when the input is a proper prefix of the tag, and a mismatch otherwise. |
| Protocol.DecodeEncodeErrorCode | src/protocol/mod.rs:55-78 | A 4-byte error code followed by anything decodes to itself and leaves the rest. |
| Handshake.DecodeClient | src/protocol/handshake.rs:95-106 | The client handshake parses exactly when 12 bytes starting with "TRTP" are present. Any prefix of such bytes is `Incomplete`, and the parsed value re-encodes to the 12 bytes consumed. |
| Handshake.DecodeEncodeClient | src/protocol/handshake.rs:74-106 | Encoding a client handshake and decoding it, whatever follows, gives the handshake and exactly the following bytes. |
| Handshake.DecodeServer | src/protocol/handshake.rs:129-133 | The server reply parses exactly when 8 bytes starting with "TRTP" are present, and is `Incomplete` on a prefix of them. |
| Handshake.DecodeEncodeServer | src/protocol/handshake.rs:121-133 | A server reply survives the encode-decode round trip with any trailing bytes. |
| Handshake.OkReplyBytes | src/protocol/handshake.rs:114-128 | `ok()` carries error code 0 and goes on the wire as "TRTP" followed by four zero bytes. |
| Handshake.ClientVector | src/protocol/handshake.rs:140-157 | The 12-byte client test vector parses completely: protocol "HOTL", version 1, sub-version 2. |
| Handshake.ServerVector | src/protocol/handshake.rs:145-172 | The 8-byte server test vector parses completely, with error code 0. |
| TransactionTypes.FromCodeCode | src/protocol/transaction_type.rs:10-78 | Every transaction type is recovered from its numeric code. |
| TransactionTypes.FromCodeNone | src/protocol/transaction_type.rs:10-78 | `try_from` fails on exactly the codes that no variant carries. |
| TransactionTypes.CodeInjective | src/protocol/transaction_type.rs:10-78 | No two transaction types share a code. |
| TransactionFields.FromCode | src/protocol/transaction_field.rs:5-10 | The four declared fields decode from 102, 105, 106 and 160 and from no other code, each to the field carrying that code. |
| Transactions.DecodeHeader | src/protocol/transaction.rs:22-31 | A header parses exactly when 20 bytes are present; the result re-encodes to those bytes and the rest is untouched. |
| Transactions.DecodeEncodeHeader | src/protocol/transaction.rs:57-79 | Any header written in the seven-field layout decodes back to itself. |
| Transactions.TransactionType | src/protocol/transaction.rs:33-38 | The header's type is the declared variant with its code. A code no variant has gives `UnsupportedTransaction` with that code. |
| Transactions.RequireType | src/protocol/transaction.rs:39-51 | Gives the header back exactly when its code is the expected type's. Otherwise the error is `UnsupportedTransaction` for an unknown code and `UnexpectedTransaction(expected, found)` for a known one. |
| Transactions.BodyLen | src/protocol/transaction.rs:52-54 | The body length is the data size; a negative `i32` sign-extends through `usize` to at least 2^63. |
| Transactions.DecodeEncodeParameters | src/protocol/mod.rs:1535-1567 | Parameters whose data fit a 16-bit length, written one after another, are read back by `count(parameter, n)` in order, leaving the rest. |
| Transactions.DecodeEncodeBody | src/protocol/mod.rs:1535-1567 | A body whose parameter count and lengths fit 16 bits decodes back to itself with any trailing bytes. |
| Transactions.EncodeFrame | src/connection.rs:47-50 | A written frame is its header, with both size fields set to the body length, followed by the body bytes. |
| Transactions.RequireFrameType | src/protocol/mod.rs:214-238 | A frame passes the type check exactly when its header code is the expected one. Otherwise it fails with the header check's error. |
| Frames.NextFrame | src/server/transaction_stream.rs:34-57 | Reading a frame never yields `ParseHeader`. It yields `Io` exactly when the stream lacks a whole header plus the body that header announces, and `ParseBody` exactly when that body fails to decode. Otherwise it consumes exactly header plus body. |
| Frames.StreamStaysEnded | src/server/transaction_stream.rs:27-33 | Once the endless frame stream has produced `Io`, every later item is `Io` too. |
| Frames.IterateEnded | src/server/transaction_stream.rs:27-33 | A reader that keeps failing with `Io` on an exhausted stream produces nothing but `Io` from then on. |
| Frames.WriteThenRead | src/connection.rs:23-50 | Reading back a written frame gives the frame, with its sizes filled in, and leaves whatever followed. |
| Parameters.InvertInvolution | src/protocol/parameters.rs:26-30 | Complementing credential bytes twice gives them back. |
| Parameters.LoginCleartextRoundTrip | src/protocol/parameters.rs:94-135 | Inverting a login built from cleartext recovers the cleartext. |
| Parameters.PasswordCleartextRoundTrip | src/protocol/parameters.rs:137-177 | Deobfuscating a password built from cleartext recovers the cleartext. |
| Parameters.TakeIfMatches | src/protocol/parameters.rs:782-794 | Yields the data exactly when the field id matches, and `UnexpectedTransaction(expected, found)` otherwise. |
| Parameters.ByteViewsRoundTrip | src/protocol/parameters.rs:34-177 | The nickname, login and password views each recover what their encoder wrote. |
| Parameters.ReadInt | src/protocol/parameters.rs:272-306 | A fixed-width integer view succeeds exactly when the data has that width; the value re-encodes to the data, and any other width is `MalformedData`. |
| Parameters.ReadIntParameter | src/protocol/parameters.rs:272-306 | An encoded in-range integer reads back as itself whatever field id it carries. |
| Parameters.IdDecodersIgnoreField | src/protocol/parameters.rs:228-323 | The chat id, icon id, user id and user flags views depend on the data alone, never on the field id. |
| Parameters.FileTypeFrom | src/protocol/parameters.rs:576-596 | A file type needs the file-type field and exactly 4 bytes. A wrong field is `UnexpectedTransaction`; a wrong length is `MalformedData`. |
| Parameters.Anonymous | src/protocol/parameters.rs:336-345 | An anonymous user has user id 0, flags 0, the given icon and name. The length field is the name length truncated to `i16`: equal to the name length below 32768 bytes, and different from it above. |
| Parameters.ParseDepth | src/protocol/parameters.rs:445-448 | The depth is the first two bytes as an `i16`, sign-extended to 64 bits. |
| Parameters.ParseComponent | src/protocol/parameters.rs:449-454 | Succeeds exactly when two ignored bytes, an `i8` length and that many name bytes (the length sign-extended) are present, and otherwise fails as `Incomplete`. The name is exactly those bytes, and the rest follows them. |
| Parameters.ComponentsRoundTrip | src/protocol/parameters.rs:449-469 | Components shorter than 128 bytes, encoded in sequence, are read back in order by `count(component, n)`. |
| Parameters.FilePathRoundTrip | src/protocol/parameters.rs:455-520 | A directory of at most 32767 components of at most 127 bytes each is recovered from its encoding, whatever bytes trail it. |
| Parameters.FilePathOptionRoundTrip | src/protocol/parameters.rs:522-550 | A directory sent as an optional parameter comes back as the same directory. |
| Parameters.RootAndEmptyPath | src/protocol/parameters.rs:530-550 | The root travels as no parameter and comes back as the root. An empty directory is a real parameter and stays an empty directory. |
| Parameters.ComponentIgnoresPrefix | src/protocol/parameters.rs:449-454 | The two bytes in front of a component's length never affect the result. |
| Parameters.NegativeDepthRejected | src/protocol/parameters.rs:445-458 | A negative depth cannot be satisfied by any input, so the path is `MalformedData`. |
| Parameters.NegativeLengthRejected | src/protocol/parameters.rs:449-454 | A negative component length cannot be satisfied by any input, so the component fails. |
| Dates.TryFromTime | src/protocol/date.rs:23-45 | Fails with `SystemError` exactly at or after year 10000. Otherwise it gives a year in 1970..9999, milliseconds 0, and seconds within that year, such that year start plus seconds is the time clamped at the epoch. |
| Dates.FromTime | src/protocol/date.rs:46-50 | A failed conversion becomes the all-zero date; otherwise the checked conversion is used. |
| Dates.BeforeEpoch | src/protocol/date.rs:23-45 | Any time before the epoch is stamped as the first second of 1970. |
| Dates.StampOfYearOffset | src/protocol/date.rs:23-50 | Second k of year y (1970 to 9999) is stamped as year y with k seconds, so stamping inverts the year-and-offset decomposition. |
| Dates.YearUnique | src/protocol/date.rs:23-45 | At most one year contains a given day, so the year found is the only one. |
| Dates.DecodeEncodeDate | src/protocol/date.rs:14-20 | The 8-byte date (year, milliseconds, seconds) decodes back to itself. |
| Requests.FindMap | src/protocol/mod.rs:214-238 | The first parameter a view accepts gives the value. None means that no parameter is accepted. |
| Requests.FindMapFirst | src/protocol/mod.rs:214-238 | The value comes from the earliest accepted parameter, not any later one. |
| Requests.DecodeLoginAsWritten | src/protocol/mod.rs:214-238 | The login decoder as written requires the Login type. Login, nickname and password are the first parameters that view as each. The icon is the first parameter whose data is 2 bytes, whatever its field. |
| Requests.DecodeLogin | src/protocol/mod.rs:214-238 | Requires the Login type. Login, nickname and password each come from the first parameter of their own field; the icon comes from the first 2-byte icon field. |
| Requests.DecodeEncodeLogin | src/protocol/mod.rs:299-315 | Any login request, encoded into a Login frame, decodes back to itself. |
| Requests.LoginIconMisread | src/protocol/parameters.rs:280-288 | With the 2-byte login "jo" and icon 145, the as-written decoder reports the login's obfuscated bytes as icon -27248. The corrected decoder returns the request that was sent. |
| Requests.DecodeShowAgreement | src/protocol/mod.rs:240-267 | A body with a no-agreement parameter decodes to no agreement; otherwise the agreement is the first server-agreement field. The banner is never decoded. |
| Requests.EncodeShowAgreement | src/protocol/mod.rs:317-329 | One parameter: the agreement text under the data field, or the no-agreement flag. |
| Requests.NoAgreementRoundTrip | src/protocol/mod.rs:240-329 | "No agreement" survives encoding and decoding; the banner is dropped. |
| Requests.BannerTypeFrom | src/protocol/mod.rs:269-285 | A single byte 1 is a URL banner and a single byte 0 is a data banner; any other data is `MalformedData`. |
| Requests.DecodeSetClientUserInfo | src/protocol/mod.rs:332-357 | Requires the SetClientUserInfo type and a nickname parameter, reporting `MissingField` for the nickname and then the icon. |
| Requests.CollectUserIds | src/protocol/mod.rs:1084-1114 | Returns one id per user-id parameter, in order, each the value of that parameter's 2 bytes. Any user-id parameter that is not exactly 2 bytes makes the whole request `MalformedData`. |
| Requests.InviteToNewChatRoundTrip | src/protocol/mod.rs:1084-1114 | Any list of user ids survives encoding into an InviteToNewChat frame and decoding. |
| Requests.FileNameWithInfoParameter | src/protocol/mod.rs:732-760 | Lays out type, creator, size as `i32`, four zero bytes, the script, the name length truncated to `i16` and the name, in that order. |
| LoginVector.VectorIsOneFrame | src/protocol/mod.rs:1535-1567 | The 60-byte login test packet is exactly one frame with nothing left over. |
| LoginVector.VectorLogin | src/protocol/mod.rs:1535-1567 | Both login decoders read the test packet as login "jyelloz", nickname "jyelloz", password "123456" and icon 145. |
| LoginVector.VectorObfuscation | src/protocol/mod.rs:1535-1567 | The packet's obfuscated login and password are the complements of the cleartexts. |
| Apple.EntryFromCode | src/apple.rs:18-33 | Entry ids decode from 1 to 15 except 7, each to the entry carrying that code. |
| Apple.EntryCodeRoundTrip | src/apple.rs:18-33 | Every entry id is recovered from its code. |
| Apple.ContiguousSpan | src/apple.rs:37-47 | Descriptors that each start at the previous one's next offset end at the first offset plus the sum of the lengths. |
| Apple.NewHeader | src/apple.rs:59-64 | The header keeps the descriptors, and its count is their number, truncated to 16 bits. |
| Apple.HeaderSize | src/apple.rs:65-67 | `calculate_size` is the encoded length of a header with that many descriptors. |
| Apple.HeaderRoundTrip | src/apple.rs:49-64 | A header with fewer than 65536 descriptors decodes back to itself after the magic and padding. |
| Apple.DataForkOf | src/apple.rs:68-73 | The data fork is a descriptor with id 1 taken from the header; None means that no descriptor has id 1. |
| Apple.ResourceForkOf | src/apple.rs:74-79 | The resource fork is a descriptor with id 2 taken from the header; None means that no descriptor has id 2. |
| Apple.ForkIsFirst | src/apple.rs:68-73 | The data fork is the first descriptor with id 1. |
| Apple.ResourceForkIsFirst | src/apple.rs:74-79 | The resource fork is the first descriptor with id 2. |
| Users.IdOf | src/server/users.rs:15 | A new user's id is the counter truncated to `i16`, and equals the counter below 32768. |
| Users.Add | src/server/users.rs:13-20 | Appends the user stamped with the counter's id, returns that id, and advances the counter. |
| Users.Remove | src/server/users.rs:21-24 | Keeps exactly the users with a different id; the counter is unchanged. |
| Users.RetainConcat | src/server/users.rs:21-24 | Filtering a list is filtering its parts: the order of the rest is kept. |
| Users.AddThenRemove | src/server/users.rs:13-24 | Removing a user just added restores the list, provided the new id was not in use. |
| Users.SequentialIds | src/server/users.rs:13-20 | Two additions get consecutive ids. |
| Users.AddFresh | src/server/users.rs:13-20 | While the counter stays below 32768, a new id is unused and the list stays well numbered. |
| Chat.AddUser | src/server/chat.rs:74-76 | Adding a member keeps the subject, includes the user and adds no one else. |
| Chat.RemoveUser | src/server/chat.rs:77-79 | Removing a member keeps the subject, excludes the user and removes no one else. |
| Chat.MembershipIdempotent | src/server/chat.rs:74-79 | Adding or removing twice is the same as once, and adding then removing a non-member restores the room. |
| Chat.NextId | src/server/chat.rs:36-42 | Under the assumed truncating cast back to `ChatId`, the next room id is one more, wrapping from 32767 to -32768. |
| Chat.TakeReturn | src/server/chat.rs:97-104 | Taking an existing room and returning it leaves the store unchanged. |
| Chat.Join | src/server/chat.rs:113-117 | The user joins the room, which is created unnamed if missing; no other room changes. |
| Chat.Leave | src/server/chat.rs:118-122 | The user leaves the room, which is left empty if missing; no other room changes. |
| Chat.SetSubject | src/server/chat.rs:127-134 | Sets the room's subject and keeps its members; no other room changes. |
| Chat.RoomOfAfterUpdates | src/server/chat.rs:113-134 | After a join, leave or subject change, looking up the room sees the change: the user is in it, out of it, or the subject is set. Looking up any other room gives what it gave before. |
| Chat.JoinAllMembers | src/server/chat.rs:105-112 | Joining a list of users adds exactly those users to the room. |
| Chat.Create | src/server/chat.rs:105-112 | Creating a room uses the counter as its id, advances the counter, and leaves other rooms alone. |
| Chat.CreateMembers | src/server/chat.rs:105-112 | A new room holds exactly the given users and has no subject. |
| Chat.FirstCreate | src/server/chat.rs:94-112 | The first room of a fresh store gets id 1. |
| Paths.CollectRelative | src/server/files.rs:259-264 | Collecting components followed by a relative path appends that path unchanged. |
| Paths.CollectFromRoot | src/server/files.rs:259-264 | A root component discards everything collected before it. |
| Paths.WithFileName | src/server/transfers.rs:114-121 | `with_file_name` replaces the last name, or appends one when there is none. |
| Paths.AppleDoublePath | src/server/transfers.rs:114-121 | The sidecar path is the same directory with "._" prefixed to the file name. |
| Paths.AppleDoubleByJoin | src/server/transfers.rs:114-121 | The sidecar path is the parent joined with the prefixed name. |
| Files.SubpathAsWritten | src/server/files.rs:259-264 | The path as written: validation, then the root's components and the client's collected together. |
| Files.AbsolutePathEscapes | src/server/files.rs:252-264 | Under the root `/srv/files`, the client path `/etc/passwd` passes validation and is served as `/etc/passwd`. |
| Files.Subpath | src/server/files.rs:259-264 | The corrected path accepts exactly relative paths without `..`. Every accepted result starts with the root and adds only plain components. |
| Files.SubpathAgrees | src/server/files.rs:252-264 | On every relative path the corrected and the as-written versions agree. |
| Files.Listed | src/server/files.rs:225-240 | A listing keeps exactly the names that are not AppleDouble sidecars. |
| Files.SidecarHidden | src/server/files.rs:225-231 | The sidecar of any file is hidden from listings. |
| Files.AppleMagic | src/server/files.rs:288-302 | The sniffed 8-byte magic is the creator followed by the type; there is no resource fork. |
| Files.ListedSizeReadsBack | src/server/files.rs:67-133 | Below 2 GiB, the size field of a listed entry decodes to the data length plus the resource length. The first 8 bytes are the type and the creator. |
| Files.SniffedListing | src/server/files.rs:101-133 | A sniffed file under 2 GiB with a name that encodes is listed with the sniffed type and creator, its data length as the size, script 0 and the encoded name. |
| Files.ToFileNameWithInfo | src/server/files.rs:101-133 | A listing entry needs a name that encodes to MacRoman, else `InvalidData`. Its type and creator are copied, the script is 0, and the size is the total truncated to `i32`. |
| Files.DirectoryEntry | src/server/files.rs:192-201 | A directory is listed with size 0, type "fldr" and creator 0. |
| Transfers.NextId | src/server/transfers.rs:90-94 | Hands out the counter and advances it; a handed-out number was never stored before. |
| Transfers.AddDownload | src/server/transfers.rs:71-77 | Stores the download under a fresh number and returns that number. |
| Transfers.AddUpload | src/server/transfers.rs:78-82 | Stores the upload under a fresh number and returns that number. |
| Transfers.Remove | src/server/transfers.rs:86-89 | Removes only the given number. |
| Transfers.GetFileDownload | src/server/transfers.rs:277-282 | Succeeds exactly for a stored download, giving its path; anything else is `InvalidRequest`. |
| Transfers.GetFileUpload | src/server/transfers.rs:283-288 | Succeeds exactly for a stored upload, giving its path; anything else is `InvalidRequest`. |
| Transfers.DownloadLookup | src/server/transfers.rs:71-85 | A number handed out for a download finds that download and never an upload. |
| Transfers.UploadLookup | src/server/transfers.rs:78-85 | A number handed out for an upload finds that upload and never a download. |
| Transfers.CompletedIsInvalid | src/server/transfers.rs:557-565 | After completion the number is invalid for either kind. |
| Transfers.DistinctNumbers | src/server/transfers.rs:90-94 | Two successive requests get different numbers, and both stay retrievable. |
| News.Post | src/server/news.rs:27-31 | Posting appends the decoded article and keeps the older ones. |
| News.JoinLength | src/server/news.rs:32-40 | The joined board is the articles' lengths plus one separator between each pair. |
| News.PostThenAll | src/server/news.rs:27-40 | After a post, the board starts with the newest article, then the separator, then the older ones newest first. |
| ChatMessages.FromChat | src/server/mod.rs:7-23 | A public chat line is "\r ", the name, ": " and the text, with no room id. |
| ChatMessages.SplitFromChat | src/server/mod.rs:7-23 | Knowing the name length, the name and the text are recovered from the line. |
| ChatMessages.FromChatInjective | src/server/mod.rs:7-23 | Between senders whose names have the same length, equal lines mean the same sender and the same text. |
| ChatMessages.NameLengthNeeded | src/server/mod.rs:7-23 | Without the name length, a line is ambiguous: the name "a" with text ": b" gives the same line as the name "a: " with text "b". |
| Permissions.FileCode | src/server/application.rs:36-50 | File operation codes lie in 0..8, 25 and 28..31. |
| Permissions.PackBit | src/server/application.rs:210-218 | A packed bit is set exactly when some allowed operation has that code. |
| Permissions.UnpackPack | src/server/application.rs:197-218 | With distinct codes, reading back a written set gives the set. |
| Permissions.CodesDistinct | src/server/application.rs:34-96 | No two operations of a category share a bit. |
| Permissions.Complete | src/server/application.rs:34-96 | The iteration order of each category lists every operation. |
| Permissions.AccountFromBits | src/server/application.rs:452-462 | Each category of the account holds exactly the operations whose bits are set in the word. |
| Permissions.FileBit | src/server/application.rs:464-473 | In the OR of all five categories, a file operation's bit is set exactly when the account allows it; no other category sets it. |
| Permissions.UserBit | src/server/application.rs:464-473 | In the combined word, a user operation's bit is set exactly when the account allows it. |
| Permissions.AccountRoundTrip | src/server/application.rs:452-473 | Writing an account to the 64-bit word and reading it back gives the same account. |
| Permissions.FlagValue | src/server/application.rs:210-218 | An operation's flag is the number 1 << (63 - code). |
| Permissions.AccessRoundTrip | src/server/application.rs:475-479 | The word and its 8 big-endian bytes convert both ways without loss; the bytes read as the two's-complement `i64` of the word. |
| Permissions.AccountAccessRoundTrip | src/server/application.rs:452-479 | An account sent as the user-access bytes and read back is unchanged. |
| Permissions.SerializeRoundTrip | src/server/application.rs:120-159 | The operation-to-boolean map read back yields exactly the allowed operations. |
| UserEditor.MatchUsername | src/server/user_editor.rs:43-61 | Accepts exactly 1 to 32 characters from `[a-z0-9_-]`. |
| UserEditor.Utf8Length | src/server/user_editor.rs:44-47 | The byte length is between the character count and four times it. |
| UserEditor.UsernameIsNickname | src/server/user_editor.rs:43-73 | Every valid username is also a valid nickname. |
| UserEditor.NicknameBounds | src/server/user_editor.rs:63-73 | 1 to 8 characters always fit, a valid nickname has at most 32 characters, and 17 two-byte characters do not fit. |
| UserEditor.Checkboxes | src/server/user_editor.rs:20-22 | Every operation is shown in order, ticked exactly when currently allowed. |
| UserEditor.Selected | src/server/user_editor.rs:17-31 | The new permission set is exactly the operations at the selected indices. |
| UserEditor.Ticked | src/server/user_editor.rs:23-29 | Accepting the defaults selects exactly the ticked boxes. |
| UserEditor.KeepDefaults | src/server/user_editor.rs:17-31 | Submitting the pre-ticked boxes unchanged leaves the permissions as they were. |
| Server.Process | src/bin/nlserver.rs:254-276 | Each phase advances one stage on success and leaves the state `Borrowed` on failure. A closed connection stays closed and reports success. |
| Server.ClosedKeepsStepping | src/bin/nlserver.rs:254-276 | Once closed, a connection driven by `while process().is_ok()` keeps stepping and succeeding for as long as it is driven. |
| Server.SessionOutcome | src/bin/nlserver.rs:254-276 | A session stops borrowed after 1, 2 or 3 steps at the first phase that fails; if all succeed it closes and then spins. |
| Server.Find | src/bin/nlserver.rs:66-68 | Finds the first listed user with the id; None means that no user has it. |
| Server.FindIsFirst | src/bin/nlserver.rs:66-68 | A user with the id that no earlier user shares is the one found. |
| Server.CurrentUserAfterAdd | src/bin/nlserver.rs:58-75 | After the user is added and the connection keeps the new id, the current user is the added record, stamped with that id, provided the list is well numbered and the counter is below 32767. |
| Server.CurrentUserAfterRemove | src/bin/nlserver.rs:58-81 | Once the user is removed from the list, a connection holding that id has no current user. |
| Server.ChatListAfterJoin | src/bin/nlserver.rs:91-102 | A listed user who joins a room appears in its chat list. When the room existed, no other user's presence in the list changes. |
| Server.ChatListAfterLeave | src/bin/nlserver.rs:91-102 | A user who leaves a room is absent from its chat list. When the room existed, no other user's presence in the list changes. |
| Server.Notify | src/bin/nlserver.rs:549-625 | Consumes one transaction id per notification and writes nothing for `Empty`. A public chat line always goes out. A room chat line goes out only to members of the room, and a message or invitation only to its addressee. Every other notification goes out. Only room chat lines and `ChatRoomLeave` carry the id. |
| Server.PrivateChatReach | src/bin/nlserver.rs:558-573 | A room chat line reaches a connection exactly when its user is listed in the room. |
| Server.NotifyAll | src/bin/nlserver.rs:549-625 | A run of notifications writes one outcome each and consumes one id each. |
| Server.NotifyAllIds | src/bin/nlserver.rs:549-625 | The i-th written frame that carries an id carries the starting id plus i. |
| Server.FillInOldStyle | src/bin/nlserver.rs:336-346 | After `fill_in` with a nickname and an icon, `old_style` yields exactly that pair. |
| Server.Login | src/bin/nlserver.rs:350-390 | Decodes the first frame with the as-written login decoder and propagates its error. Otherwise the login exchange decides the outcome. |
| Server.Exchange | src/bin/nlserver.rs:365-390 | Reads one frame exactly when the request has both a nickname and an icon. Otherwise it needs a SetClientUserInfo follow-up: a failed read of that frame ends the login with the read's error, and a malformed one with that decoder's error. The logged-in user is anonymous with the filled-in nickname and icon, and the credentials come from the first frame. |
| Server.FollowUpReadErrors | src/server/transaction_stream.rs:34-57 | When the follow-up is read from the connection, a frame whose body does not parse ends a new-style login with `ParseBody`, and an exhausted connection ends it with `Io`. |
| Server.LoginCorrected | src/bin/nlserver.rs:350-390 | The same exchange on the corrected login decoder, which propagates that decoder's error. |
| Server.TwoByteLoginIsOldStyle | src/bin/nlserver.rs:350-374 | A login "jo" with nickname "x" and no icon logs in from one frame, with the login's bytes misread as icon -27248. The corrected decoder waits for a follow-up and fails with `Io` when none comes. |
| Server.OldStyleIgnoresNext | src/bin/nlserver.rs:365-374 | A login that decodes with both a nickname and an icon succeeds after reading one frame, whatever the next frame is. |
| Server.FirstAccepting | src/bin/nlserver.rs:447-537 | The chosen handler accepts the frame and every earlier one refuses it. |
| Server.Dispatch | src/bin/nlserver.rs:447-537 | A frame is handled by an accepting handler; no handler means that every handler refuses. |
| Server.Reply | src/bin/nlserver.rs:432-547 | Fails exactly when a handler that needs a logged-in user runs without one, or when the client-request handler fails. An unknown frame, an unanswered client request, a subject change and a chat leave by a logged-in user get no reply. Keep-alives and broadcasts get the generic reply, and instant messages get their own reply. With a logged-in user, both chat invitations get the new-chat invitation reply and a join gets the join reply; a user lookup always gets the user reply. |
| Server.KeepAliveAnswered | src/bin/nlserver.rs:531-533 | A keep-alive always gets the generic reply. |
| Server.UnknownIgnored | src/bin/nlserver.rs:534-536 | A frame no handler accepts gets no reply. |
| Server.Without | src/bin/nlserver.rs:103-115 | Filtering out the creator keeps exactly the other invitees. |
| Server.CreateChat | src/bin/nlserver.rs:103-115 | A new room gets the next id and holds only the creator; every other room keeps its key and contents. The invitations go to the invited list with the creator filtered out, duplicates and order kept. |
| Server.CreatorAlone | src/bin/nlserver.rs:103-115 | A room created for its creator holds exactly the creator. |
| Server.InvitesReachInvitees | src/bin/nlserver.rs:103-115 | A logged-in connection receives one of the new room's invitations exactly when its user was invited and is not the creator. |

## Left out

- Asynchronous I/O, sockets, tasks and channels are not modelled. Stream input is a byte sequence, and a read past its end is `Io`.
- The notification bus, the chat service task, the transfer server's file copying and every other filesystem call are not modelled. Their results become parameters.
- Allocating the announced body size can abort on huge sizes; this is not modelled.
- The transaction body parser and `into_bytes` are not modelled; their layout is fixed by the login test packet: a 16-bit count, then field id, 16-bit length and data for each parameter. The written frame's size fields are set to the body length.
- Field ids other than the four declared ones are named constants, and the model uses only that they are distinct.
- MacRoman and the news board's encoding are function parameters. So are bcrypt, the file-type sniffing library and TOML with its key spellings.
- The account editor's prompts and regex engine are not modelled; the user's answers are parameters.
- Arithmetic that panics on overflow is modelled as a precondition, each with its bound. This covers `next_offset`, `calculate_size`, `total_size`, the transfer counter and the transaction id.
- Windows path prefixes and non-UTF-8 file names other than the sidecar test are not modelled.
- Chat.NextId: the i32-to-ChatId conversion at chat.rs:40 is not defined in the source; the truncating cast is assumed.
- Server.Reply: the client-request handler is a parameter: it answers, stays silent or fails. `reply_to` and the framing of the written reply are not part of this model.
- Server.Find: the user list's `find` is modelled as the first user with the id, as a linear search would give.
- Server.ChatList: the result is a set, because the room's members come from a hash set with no defined order.
- Permissions.AccountBits: the bits of the default account are not stated as a number; the default account is only a value.
- Permissions.Unpack: `can` is modelled as set membership.
- Requests.DecodeSetClientUserInfo: kept as written, so its icon shares the field-blind view of the first finding below.
- Requests.DecodeShowAgreement: the agreement is written under the data field but read from the server-agreement field, so only the no-agreement case round-trips.
- Dates.TryFromTime: covers whole seconds only; sub-second parts of the time are dropped, as the library does when it truncates.
- Parameters.ReadInt: `read_deku` is not part of this model; the integer views are assumed to need exactly the field's width, with no trailing bytes.
- Transactions.DecodeBody: an empty body buffer is read as a body with no parameters, the shape of the frames with `data_size` 0 that the server sends. The body parser is not part of this model, so this is an assumption.
- Paths.AppleDoublePath: the requires that the path has a file name excludes the `expect("no filename")` panic at src/server/transfers.rs:114-121.
- Files.AppleMagic: the requires `|magic| == 8` stands for the 8 bytes the sniffing library reports.
- Files.MakeFileInfo: the file-info reply that consumes it is not modelled, so only its field-by-field contract is stated.
- Permissions.Flag, Permissions.Unpack, Transfers.Get, Users.Borrow, Chat.TakeRoom, Apple.NextOffset, Files.ValidatePath, Files.TotalSize, Server.NextTransactionId, Server.OldStyle, Server.CurrentUser and Server.ChatList are helpers; their properties are stated by the lemmas that use them.

## Findings

| source | as written | input that shows it | evidently intended | confidence | as-written member | corrected member |
|---|---|---|---|---|---|---|
| src/protocol/parameters.rs:280-288 | `IconId::try_from` ignores the parameter's field id, so the login decoder takes the first parameter with 2 bytes of data as the icon | a login request whose login is the 2-byte "jo" and whose icon is 145: the icon read back is the login's obfuscated bytes | only the icon field yields the icon, so every login request round-trips | not executed | Requests.DecodeLoginAsWritten | Requests.DecodeLogin |
| src/server/files.rs:252-264 | `validate_path` rejects only `..`; an absolute client path then replaces the root when the components are collected | root `/srv/files` with client path `/etc/passwd` yields `/etc/passwd` | every served path lies under the root | not executed | Files.SubpathAsWritten | Files.Subpath |

The server's login, `Server.Login`, keeps the as-written decoder, as the server binary does. `Server.LoginCorrected` runs the same exchange on the corrected decoder, and `Server.TwoByteLoginIsOldStyle` shows where the two sessions part.
