/**
 * `InstallerInfo`: the choices gathered for an installation. Construction
 * sets every construct-only property through its setter, with the
 * property's default where no value is given.
 */
module InstallInfo {
  import opened Wrappers
  import opened Strings

  /** The default of the "hostname" property. */
  const DefaultHostname := ""

  class Info {
    /** The owning window, by identity; None is NULL. */
    var owner: Option<nat>
    var enableGeoip: bool
    var hostname: CString
    var windowsPresent: bool
    var installBootloader: bool
    var invalidated: bool

    /**
     * `installer_info_new`. The hostname default "" is turned away by the
     * hostname setter, so the hostname stays NULL.
     */
    constructor (owner: Option<nat>)
      ensures this.owner == owner && hostname == None
      ensures !enableGeoip && !windowsPresent && !installBootloader && !invalidated
    {
      this.owner := None;
      enableGeoip, windowsPresent, installBootloader, invalidated := false, false, false, false;
      hostname := None;
      new;
      SetOwner(owner);
      SetEnableGeoip(false);
      SetHostname(Some(DefaultHostname));
      SetWindowsPresent(false);
      SetInstallBootloader(false);
      SetInvalidated(false);
    }

    /** The "owner" property: stored only while no owner is set. */
    method SetOwner(value: Option<nat>)
      modifies this
      ensures owner == (if old(owner).None? then value else old(owner))
      ensures enableGeoip == old(enableGeoip) && hostname == old(hostname)
      ensures windowsPresent == old(windowsPresent) && installBootloader == old(installBootloader)
      ensures invalidated == old(invalidated)
    {
      if owner.None? {
        owner := value;
      }
    }

    /** `installer_info_set_enable_geoip`. */
    method SetEnableGeoip(value: bool)
      modifies this
      ensures enableGeoip == value
      ensures owner == old(owner) && hostname == old(hostname)
      ensures windowsPresent == old(windowsPresent) && installBootloader == old(installBootloader)
      ensures invalidated == old(invalidated)
    {
      enableGeoip := value;
    }

    /** `installer_info_set_hostname`: NULL and "" are ignored. */
    method SetHostname(value: CString)
      modifies this
      ensures hostname == (if IsStringValid(value) then value else old(hostname))
      ensures owner == old(owner) && enableGeoip == old(enableGeoip)
      ensures windowsPresent == old(windowsPresent) && installBootloader == old(installBootloader)
      ensures invalidated == old(invalidated)
    {
      if !IsStringValid(value) {
        return;
      }
      hostname := value;
    }

    /** `installer_info_set_windows_present`. */
    method SetWindowsPresent(value: bool)
      modifies this
      ensures windowsPresent == value
      ensures owner == old(owner) && enableGeoip == old(enableGeoip) && hostname == old(hostname)
      ensures installBootloader == old(installBootloader) && invalidated == old(invalidated)
    {
      windowsPresent := value;
    }

    /** `installer_info_set_install_bootloader`. */
    method SetInstallBootloader(value: bool)
      modifies this
      ensures installBootloader == value
      ensures owner == old(owner) && enableGeoip == old(enableGeoip) && hostname == old(hostname)
      ensures windowsPresent == old(windowsPresent) && invalidated == old(invalidated)
    {
      installBootloader := value;
    }

    /** `installer_info_set_invalidated`. */
    method SetInvalidated(value: bool)
      modifies this
      ensures invalidated == value
      ensures owner == old(owner) && enableGeoip == old(enableGeoip) && hostname == old(hostname)
      ensures windowsPresent == old(windowsPresent) && installBootloader == old(installBootloader)
    {
      invalidated := value;
    }
  }

  /** Once an owner is set, no later owner replaces it. */
  method OwnerWriteOnce(first: nat, second: Option<nat>) returns (owner: Option<nat>)
    ensures owner == Some(first)
  {
    var info := new Info(Some(first));
    info.SetOwner(second);
    owner := info.owner;
  }

  /** The default hostname does not survive construction: the getter gives NULL, not "". */
  method HostnameAfterConstruction() returns (hostname: CString)
    ensures hostname == None
  {
    var info := new Info(None);
    hostname := info.hostname;
  }
}
