/**
 * Start-up checks of the synchroniser's options: the cluster role name, the
 * role binding name and the group list must all be given, or the process
 * reports the first one missing and exits with status 1 (every
 * `ConfigError` stands for that exit).
 */
module Startup {
  import opened Wrappers
  import GroupList

  /** The option values after flag parsing. */
  datatype Options = Options(clusterRoleName: string, roleName: string, groupList: string)

  /** The first required option found empty. */
  datatype ConfigError = MissingClusterRoleName | MissingRoleName | MissingGroupList

  /** Default values of the three required options. */
  const DefaultClusterRoleName: string := "developer"
  const DefaultRoleName: string := "developer"

  /**
   * Checks the required options in the order cluster-role-name, role-name,
   * group-list, and accepts the options unchanged when none is empty.
   */
  function CheckRequiredOptions(options: Options): (r: Result<Options, ConfigError>)
    ensures r.Success? <==>
      options.clusterRoleName != "" && options.roleName != "" && options.groupList != ""
    ensures r.Success? ==> r.value == options
    ensures options.clusterRoleName == "" ==> r == Failure(MissingClusterRoleName)
    ensures options.clusterRoleName != "" && options.roleName == "" ==> r == Failure(MissingRoleName)
    ensures options.clusterRoleName != "" && options.roleName != "" && options.groupList == "" ==>
      r == Failure(MissingGroupList)
  {
    if options.clusterRoleName == "" then Failure(MissingClusterRoleName)
    else if options.roleName == "" then Failure(MissingRoleName)
    else if options.groupList == "" then Failure(MissingGroupList)
    else Success(options)
  }

  /** The options as they stand when no flag is given pass the start-up checks unchanged. */
  lemma DefaultOptionsAccepted()
    ensures var defaults := Options(DefaultClusterRoleName, DefaultRoleName, GroupList.DefaultGroupList);
      CheckRequiredOptions(defaults) == Success(defaults)
  {
  }
}
