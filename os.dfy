/**
 * `InstallerOS`: a detected operating system. Construction goes through the
 * property setters, so the same NULL guard applies to the arguments of
 * `installer_os_new` as to later calls.
 */
module OperatingSystems {
  import opened Wrappers
  import opened Strings

  /** The default of the "icon-name" property. */
  const DefaultIcon := "system-software-install"

  class Os {
    var otype: CString
    var name: CString
    var devicePath: CString
    var iconName: CString

    /** `installer_os_new`: the three arguments as given, the icon at its default. */
    constructor (otype: CString, name: CString, devicePath: CString)
      ensures this.otype == otype && this.name == name && this.devicePath == devicePath
      ensures iconName == Some(DefaultIcon)
    {
      this.otype, this.name, this.devicePath, this.iconName := None, None, None, None;
      new;
      SetOtype(otype);
      SetName(name);
      SetDevicePath(devicePath);
      SetIconName(Some(DefaultIcon));
    }

    /** `installer_os_set_otype`: NULL is ignored; any other value, "" included, replaces the type. */
    method SetOtype(value: CString)
      modifies this
      ensures otype == (if value.Some? then value else old(otype))
      ensures name == old(name) && devicePath == old(devicePath) && iconName == old(iconName)
    {
      if value.None? {
        return;
      }
      otype := value;
    }

    /** `installer_os_set_name`. */
    method SetName(value: CString)
      modifies this
      ensures name == (if value.Some? then value else old(name))
      ensures otype == old(otype) && devicePath == old(devicePath) && iconName == old(iconName)
    {
      if value.None? {
        return;
      }
      name := value;
    }

    /** `installer_os_set_device_path`. */
    method SetDevicePath(value: CString)
      modifies this
      ensures devicePath == (if value.Some? then value else old(devicePath))
      ensures otype == old(otype) && name == old(name) && iconName == old(iconName)
    {
      if value.None? {
        return;
      }
      devicePath := value;
    }

    /** `installer_os_set_icon_name`. */
    method SetIconName(value: CString)
      modifies this
      ensures iconName == (if value.Some? then value else old(iconName))
      ensures otype == old(otype) && name == old(name) && devicePath == old(devicePath)
    {
      if value.None? {
        return;
      }
      iconName := value;
    }
  }
}
