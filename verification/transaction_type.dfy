/**
  The transaction type table: every request, reply and notification kind of the
  protocol with its 16-bit numeric code. Codes come in blocks; a variant without an
  explicit code takes its predecessor's code plus one, so the gaps (1..99, 201, 213..299,
  ...) are not transaction types at all and decoding them fails.
*/
module TransactionTypes {
  import opened Wrappers
  import opened Wire

  datatype TransactionType =
    Reply
    | Error
    | GetMessages
    | NewMessage
    | OldPostNews
    | ServerMessage
    | SendChat
    | ChatMessage
    | Login
    | SendInstantMessage
    | ShowAgreement
    | DisconnectUser
    | DisconnectMessage
    | InviteToNewChat
    | InviteToChat
    | RejectChatInvite
    | JoinChat
    | LeaveChat
    | NotifyChatUserChange
    | NotifyChatUserDelete
    | NotifyChatSubject
    | SetChatSubject
    | Agreed
    | ServerBanner
    | GetFileNameList
    | DownloadFile
    | UploadFile
    | DeleteFile
    | NewFolder
    | GetFileInfo
    | SetFileInfo
    | MoveFile
    | MakeFileAlias
    | DownloadFolder
    | DownloadBanner
    | UploadFolder
    | GetUserNameList
    | NotifyUserChange
    | NotifyUserDelete
    | GetClientInfoText
    | SetClientUserInfo
    | NewUser
    | DeleteUser
    | GetUser
    | SetUser
    | UserAccess
    | UserBroadcast
    | GetNewsCategoryNameList
    | GetNewsArticleNameList
    | DeleteNewsItem
    | NewNewsFolder
    | NewNewsCategory
    | GetNewsArticleData
    | PostNewsArticle
    | DeleteNewsArticle
    | ConnectionKeepAlive

  /** The numeric code of a transaction type (`into`). */
  function Code(t: TransactionType): int16
  {
    match t
    case Reply => 0
    case Error => 100
    case GetMessages => 101
    case NewMessage => 102
    case OldPostNews => 103
    case ServerMessage => 104
    case SendChat => 105
    case ChatMessage => 106
    case Login => 107
    case SendInstantMessage => 108
    case ShowAgreement => 109
    case DisconnectUser => 110
    case DisconnectMessage => 111
    case InviteToNewChat => 112
    case InviteToChat => 113
    case RejectChatInvite => 114
    case JoinChat => 115
    case LeaveChat => 116
    case NotifyChatUserChange => 117
    case NotifyChatUserDelete => 118
    case NotifyChatSubject => 119
    case SetChatSubject => 120
    case Agreed => 121
    case ServerBanner => 122
    case GetFileNameList => 200
    case DownloadFile => 202
    case UploadFile => 203
    case DeleteFile => 204
    case NewFolder => 205
    case GetFileInfo => 206
    case SetFileInfo => 207
    case MoveFile => 208
    case MakeFileAlias => 209
    case DownloadFolder => 210
    case DownloadBanner => 211
    case UploadFolder => 212
    case GetUserNameList => 300
    case NotifyUserChange => 301
    case NotifyUserDelete => 302
    case GetClientInfoText => 303
    case SetClientUserInfo => 304
    case NewUser => 350
    case DeleteUser => 351
    case GetUser => 352
    case SetUser => 353
    case UserAccess => 354
    case UserBroadcast => 355
    case GetNewsCategoryNameList => 370
    case GetNewsArticleNameList => 371
    case DeleteNewsItem => 380
    case NewNewsFolder => 381
    case NewNewsCategory => 382
    case GetNewsArticleData => 400
    case PostNewsArticle => 410
    case DeleteNewsArticle => 411
    case ConnectionKeepAlive => 500
  }

  /** `try_from`: the transaction type whose code is c, if any variant has it. */
  function FromCode(c: int): Option<TransactionType>
  {
    match c
    case 0 => Some(Reply)
    case 100 => Some(Error)
    case 101 => Some(GetMessages)
    case 102 => Some(NewMessage)
    case 103 => Some(OldPostNews)
    case 104 => Some(ServerMessage)
    case 105 => Some(SendChat)
    case 106 => Some(ChatMessage)
    case 107 => Some(Login)
    case 108 => Some(SendInstantMessage)
    case 109 => Some(ShowAgreement)
    case 110 => Some(DisconnectUser)
    case 111 => Some(DisconnectMessage)
    case 112 => Some(InviteToNewChat)
    case 113 => Some(InviteToChat)
    case 114 => Some(RejectChatInvite)
    case 115 => Some(JoinChat)
    case 116 => Some(LeaveChat)
    case 117 => Some(NotifyChatUserChange)
    case 118 => Some(NotifyChatUserDelete)
    case 119 => Some(NotifyChatSubject)
    case 120 => Some(SetChatSubject)
    case 121 => Some(Agreed)
    case 122 => Some(ServerBanner)
    case 200 => Some(GetFileNameList)
    case 202 => Some(DownloadFile)
    case 203 => Some(UploadFile)
    case 204 => Some(DeleteFile)
    case 205 => Some(NewFolder)
    case 206 => Some(GetFileInfo)
    case 207 => Some(SetFileInfo)
    case 208 => Some(MoveFile)
    case 209 => Some(MakeFileAlias)
    case 210 => Some(DownloadFolder)
    case 211 => Some(DownloadBanner)
    case 212 => Some(UploadFolder)
    case 300 => Some(GetUserNameList)
    case 301 => Some(NotifyUserChange)
    case 302 => Some(NotifyUserDelete)
    case 303 => Some(GetClientInfoText)
    case 304 => Some(SetClientUserInfo)
    case 350 => Some(NewUser)
    case 351 => Some(DeleteUser)
    case 352 => Some(GetUser)
    case 353 => Some(SetUser)
    case 354 => Some(UserAccess)
    case 355 => Some(UserBroadcast)
    case 370 => Some(GetNewsCategoryNameList)
    case 371 => Some(GetNewsArticleNameList)
    case 380 => Some(DeleteNewsItem)
    case 381 => Some(NewNewsFolder)
    case 382 => Some(NewNewsCategory)
    case 400 => Some(GetNewsArticleData)
    case 410 => Some(PostNewsArticle)
    case 411 => Some(DeleteNewsArticle)
    case 500 => Some(ConnectionKeepAlive)
    case _ => None
  }

  /** Decoding inverts encoding for every variant (checked in blocks of seven variants). */
  lemma FromCodeCode(t: TransactionType)
    ensures FromCode(Code(t)) == Some(t)
  {
    if t.Reply? || t.Error? || t.GetMessages? || t.NewMessage? || t.OldPostNews? || t.ServerMessage?
      || t.SendChat? {
      FromCodeCodeBlock1(t);
    } else if t.ChatMessage? || t.Login? || t.SendInstantMessage? || t.ShowAgreement?
      || t.DisconnectUser? || t.DisconnectMessage? || t.InviteToNewChat? {
      FromCodeCodeBlock2(t);
    } else if t.InviteToChat? || t.RejectChatInvite? || t.JoinChat? || t.LeaveChat?
      || t.NotifyChatUserChange? || t.NotifyChatUserDelete? || t.NotifyChatSubject? {
      FromCodeCodeBlock3(t);
    } else if t.SetChatSubject? || t.Agreed? || t.ServerBanner? || t.GetFileNameList? || t.DownloadFile?
      || t.UploadFile? || t.DeleteFile? {
      FromCodeCodeBlock4(t);
    } else if t.NewFolder? || t.GetFileInfo? || t.SetFileInfo? || t.MoveFile? || t.MakeFileAlias?
      || t.DownloadFolder? || t.DownloadBanner? {
      FromCodeCodeBlock5(t);
    } else if t.UploadFolder? || t.GetUserNameList? || t.NotifyUserChange? || t.NotifyUserDelete?
      || t.GetClientInfoText? || t.SetClientUserInfo? || t.NewUser? {
      FromCodeCodeBlock6(t);
    } else if t.DeleteUser? || t.GetUser? || t.SetUser? || t.UserAccess? || t.UserBroadcast?
      || t.GetNewsCategoryNameList? || t.GetNewsArticleNameList? {
      FromCodeCodeBlock7(t);
    } else {
      FromCodeCodeBlock8(t);
    }
  }

  lemma FromCodeCodeBlock1(t: TransactionType)
    requires t.Reply? || t.Error? || t.GetMessages? || t.NewMessage? || t.OldPostNews?
      || t.ServerMessage? || t.SendChat?
    ensures FromCode(Code(t)) == Some(t)
  {
  }

  lemma FromCodeCodeBlock2(t: TransactionType)
    requires t.ChatMessage? || t.Login? || t.SendInstantMessage? || t.ShowAgreement?
      || t.DisconnectUser? || t.DisconnectMessage? || t.InviteToNewChat?
    ensures FromCode(Code(t)) == Some(t)
  {
  }

  lemma FromCodeCodeBlock3(t: TransactionType)
    requires t.InviteToChat? || t.RejectChatInvite? || t.JoinChat? || t.LeaveChat?
      || t.NotifyChatUserChange? || t.NotifyChatUserDelete? || t.NotifyChatSubject?
    ensures FromCode(Code(t)) == Some(t)
  {
  }

  lemma FromCodeCodeBlock4(t: TransactionType)
    requires t.SetChatSubject? || t.Agreed? || t.ServerBanner? || t.GetFileNameList? || t.DownloadFile?
      || t.UploadFile? || t.DeleteFile?
    ensures FromCode(Code(t)) == Some(t)
  {
  }

  lemma FromCodeCodeBlock5(t: TransactionType)
    requires t.NewFolder? || t.GetFileInfo? || t.SetFileInfo? || t.MoveFile? || t.MakeFileAlias?
      || t.DownloadFolder? || t.DownloadBanner?
    ensures FromCode(Code(t)) == Some(t)
  {
  }

  lemma FromCodeCodeBlock6(t: TransactionType)
    requires t.UploadFolder? || t.GetUserNameList? || t.NotifyUserChange? || t.NotifyUserDelete?
      || t.GetClientInfoText? || t.SetClientUserInfo? || t.NewUser?
    ensures FromCode(Code(t)) == Some(t)
  {
  }

  lemma FromCodeCodeBlock7(t: TransactionType)
    requires t.DeleteUser? || t.GetUser? || t.SetUser? || t.UserAccess? || t.UserBroadcast?
      || t.GetNewsCategoryNameList? || t.GetNewsArticleNameList?
    ensures FromCode(Code(t)) == Some(t)
  {
  }

  lemma FromCodeCodeBlock8(t: TransactionType)
    requires t.DeleteNewsItem? || t.NewNewsFolder? || t.NewNewsCategory? || t.GetNewsArticleData?
      || t.PostNewsArticle? || t.DeleteNewsArticle? || t.ConnectionKeepAlive?
    ensures FromCode(Code(t)) == Some(t)
  {
  }

  /** Whatever decodes, decodes to a variant carrying exactly that code. */
  lemma FromCodeSound(c: int)
    ensures FromCode(c).Some? ==> Code(FromCode(c).value) == c
  {
  }

  /** Decoding fails exactly on the codes no variant carries. */
  lemma FromCodeNone(c: int)
    ensures FromCode(c).None? <==> forall t: TransactionType :: Code(t) != c
  {
    if exists t: TransactionType :: Code(t) == c {
      var t: TransactionType :| Code(t) == c;
      FromCodeCode(t);
    } else {
      FromCodeSound(c);
    }
  }

  /** Distinct variants carry distinct codes. */
  lemma CodeInjective(s: TransactionType, t: TransactionType)
    requires Code(s) == Code(t)
    ensures s == t
  {
    FromCodeCode(s);
    FromCodeCode(t);
  }

  /** Codes inside the 16-bit range that name no transaction type: 1 and the gap at 201. */
  lemma UndeclaredCodes()
    ensures forall t: TransactionType :: Code(t) != 1
    ensures forall t: TransactionType :: Code(t) != 201
  {
    assert FromCode(1) == None;
    FromCodeNone(1);
    assert FromCode(201) == None;
    FromCodeNone(201);
  }
}
