/**
 * The argument type identifiers of a probe point's configuration
 * (`config.TYPE_*`).  Only the ones the event decoder names are listed;
 * every other identifier is `Unlisted`.
 */
module ArgTypes {

  datatype TypeId =
    | TypeNone
    | TypeNum
    | TypeBufferT
    | TypeString
    | TypeStringArr
    | TypePointer
    | TypeSigset
    | TypePollfd
    | TypeStruct
    | TypeTimezone
    | TypePthreadAttr
    | TypeTimeval
    | TypeTimespec
    | TypeStat
    | TypeStatfs
    | TypeSigaction
    | TypeUtsname
    | TypeSockaddr
    | TypeRusage
    | TypeIovec
    | TypeEpollEvent
    | TypeSysinfo
    | TypeSiginfo
    | TypeMsghdr
    | TypeItimerspec
    | TypeStackT
    | Unlisted(code: nat)

  /** The alias types whose value is a C structure of a fixed byte layout. */
  predicate IsFixedLayout(t: TypeId) {
    t.TypePollfd? || t.TypeTimezone? || t.TypePthreadAttr? || t.TypeTimeval? || t.TypeTimespec?
    || t.TypeStat? || t.TypeStatfs? || t.TypeSigaction? || t.TypeUtsname? || t.TypeSockaddr?
    || t.TypeRusage? || t.TypeEpollEvent? || t.TypeSysinfo? || t.TypeSiginfo? || t.TypeMsghdr?
    || t.TypeItimerspec? || t.TypeStackT?
  }

  /** The alias types the structural dispatch has a decoder for. */
  predicate Decodable(t: TypeId) {
    !(t.TypeNone? || t.TypeNum? || t.Unlisted?)
  }
}
