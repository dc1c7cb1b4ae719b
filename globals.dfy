/** The fixed locations under the per-user settings folder (Globals.cs). */
module Globals {
  import opened FileSystem

  /** Environment.SpecialFolder.UserProfile, a run-time value; a placeholder stands for it. */
  const UserProfile: string := "~"

  const SettingsPath: string := Combine(UserProfile, "LightVPN")

  const ConfigPath: string := Combine(SettingsPath, "cache")

  const OpenVpnDriversPath: string := Combine(SettingsPath, "drivers")

  const OpenVpnPath: string := Combine(SettingsPath, "ovpn")

  /** The cache, drivers and OpenVPN directories are three separate trees. */
  lemma SeparateTrees()
    ensures !Under(ConfigPath, OpenVpnDriversPath) && !Under(OpenVpnDriversPath, ConfigPath)
    ensures !Under(ConfigPath, OpenVpnPath) && !Under(OpenVpnPath, ConfigPath)
    ensures !Under(OpenVpnPath, OpenVpnDriversPath) && !Under(OpenVpnDriversPath, OpenVpnPath)
  {
    // the three names differ in their first letter, just after the settings folder
    var k := |SettingsPath| + 1;
    assert ConfigPath[k] == 'c' && OpenVpnDriversPath[k] == 'd' && OpenVpnPath[k] == 'o';
  }
}
