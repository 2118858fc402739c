/** The sealed PortalType hierarchy: one variant per portal kind, each with its permission and message keys. */
module PortalTypes {

  import opened Wrappers
  import opened Host

  datatype PortalType = NetherPortal | EndPortal | CustomPortal {

    /** getPermissionKey(). */
    function PermissionKey(): (r: string)
      ensures |r| > 0
    {
      match this
      case NetherPortal => "nether"
      case EndPortal => "end"
      case CustomPortal => "custom"
    }

    /** getMessageKey(): always "no_permission_" followed by the permission key. */
    function MessageKey(): (r: string)
      ensures r == "no_permission_" + PermissionKey()
    {
      match this
      case NetherPortal => "no_permission_nether"
      case EndPortal => "no_permission_end"
      case CustomPortal => "no_permission_custom"
    }
  }

  /** fromEnvironment: null stays null, every environment has a portal type. */
  function FromEnvironment(environment: Option<Environment>): (r: Option<PortalType>)
    ensures r.None? <==> environment.None?
  {
    match environment
    case None => None
    case Some(Nether) => Some(NetherPortal)
    case Some(TheEnd) => Some(EndPortal)
    case Some(Normal) => Some(CustomPortal)
    case Some(Custom) => Some(CustomPortal)
  }

  /** The key pair each environment ends up with. */
  lemma FromEnvironmentKeys(e: Environment)
    ensures var t := FromEnvironment(Some(e)).value;
      && (e == Nether ==> t.PermissionKey() == "nether" && t.MessageKey() == "no_permission_nether")
      && (e == TheEnd ==> t.PermissionKey() == "end" && t.MessageKey() == "no_permission_end")
      && (e in {Normal, Custom} ==> t.PermissionKey() == "custom" && t.MessageKey() == "no_permission_custom")
  {
  }
}
