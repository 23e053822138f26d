/**
 * Path conversion between the subvolume-relative names the snapper service
 * reports and the absolute names the user sees (`add_subvolume` and
 * `remove_subvolume` of client/snapper.cc). The root subvolume "/" is the
 * one case where no prefix is added or removed.
 */
module Subvolume {
  import opened Common

  /** `s` starts with `p`, as `boost::starts_with` decides it. */
  predicate StartsWith(s: string, p: string) {
    |p| <= |s| && s[..|p|] == p
  }

  /** `add_subvolume`: the absolute name of a file named `name` inside `subvolume`. */
  function AddSubvolume(subvolume: string, name: string): (r: string)
    ensures subvolume == "/" ==> r == name
    ensures subvolume != "/" ==> StartsWith(r, subvolume) && r[|subvolume|..] == name
  {
    if subvolume == "/" then name else subvolume + name
  }

  /**
   * `remove_subvolume`: the name relative to `subvolume`. A name outside the
   * subvolume ends the client (a bare `throw;`), modelled as a failure.
   */
  function RemoveSubvolume(subvolume: string, name: string): (r: Result<string>)
    ensures r.Failure? <==> !StartsWith(name, subvolume)
    ensures r.Failure? ==> r.error == NotInSubvolume(subvolume, name)
    ensures r.Success? && subvolume == "/" ==> r.value == name
    ensures r.Success? && subvolume != "/" ==> subvolume + r.value == name
  {
    if !StartsWith(name, subvolume) then Failure(NotInSubvolume(subvolume, name))
    else if subvolume == "/" then Success(name)
    else
      assert name == name[..|subvolume|] + name[|subvolume|..];
      Success(name[|subvolume|..])
  }

  /**
   * Removing the subvolume undoes adding it. For the root subvolume the
   * name must itself be absolute, since nothing is prepended to it.
   */
  lemma RemoveAddSubvolume(subvolume: string, name: string)
    requires subvolume == "/" ==> StartsWith(name, "/")
    ensures RemoveSubvolume(subvolume, AddSubvolume(subvolume, name)) == Success(name)
  {
  }

  /** Adding the subvolume back to a name it was removed from restores the name. */
  lemma AddRemoveSubvolume(subvolume: string, name: string)
    requires RemoveSubvolume(subvolume, name).Success?
    ensures AddSubvolume(subvolume, RemoveSubvolume(subvolume, name).value) == name
  {
  }
}
