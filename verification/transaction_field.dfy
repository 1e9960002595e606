/**
  Parameter field ids. Four fields are declared with explicit 16-bit codes; the other
  field ids the protocol layer refers to are kept as named constants (`FieldId`s) whose
  only role in the model is to be distinct from one another.
*/
module TransactionFields {
  import opened Wrappers
  import opened Wire

  /** The raw 16-bit id a parameter carries on the wire. */
  type FieldId = int16

  datatype TransactionField = Nickname | Username | Password | Version

  /** The discriminant of a declared field. */
  function Code(f: TransactionField): FieldId
  {
    match f
    case Nickname => 102
    case Username => 105
    case Password => 106
    case Version => 160
  }

  /** `try_from` on an i16. */
  function FromCode(c: int): (r: Option<TransactionField>)
    ensures r.Some? ==> Code(r.value) == c
    ensures r.Some? <==> c in {102, 105, 106, 160}
  {
    if c == 102 then Some(Nickname)
    else if c == 105 then Some(Username)
    else if c == 106 then Some(Password)
    else if c == 160 then Some(Version)
    else None
  }

  /** Every declared field decodes back from its code. */
  lemma FromCodeCode(f: TransactionField)
    ensures FromCode(Code(f)) == Some(f)
  {
  }

  /** Fields that appear in the login exchange. */
  const UserName: FieldId := Code(Nickname)
  const UserLogin: FieldId := Code(Username)
  const UserPassword: FieldId := Code(Password)
  const VersionField: FieldId := Code(Version)
  const UserIconId: FieldId := 104

  /** Further ids used by the request decoders and reply encoders. */
  const Data: FieldId := 101
  const UserId: FieldId := 103
  const ChatOptions: FieldId := 109
  const UserAccess: FieldId := 110
  const UserFlags: FieldId := 112
  const ChatId: FieldId := 114
  const ChatSubject: FieldId := 115
  const ServerAgreement: FieldId := 150
  const ServerBannerType: FieldId := 152
  const NoServerAgreement: FieldId := 154
  const FileNameWithInfo: FieldId := 200
  const FileName: FieldId := 201
  const FilePath: FieldId := 202
  const FileType: FieldId := 213
  const UserNameWithInfo: FieldId := 300

  /** The three credential fields of the login test frame carry ids 0x66, 0x69 and 0x6a. */
  lemma LoginVectorFieldIds()
    ensures UserName == 0x66 && UserLogin == 0x69 && UserPassword == 0x6a
    ensures FromCode(0x66) == Some(Nickname) && FromCode(0x69) == Some(Username)
    ensures FromCode(0x6a) == Some(Password) && FromCode(0x68) == None
  {
  }
}
