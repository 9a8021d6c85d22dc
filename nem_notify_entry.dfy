/**
 * The plugin's main file, nem-notify.php: it registers the autoloader and
 * hooks activation and deactivation on class Nem_Notify, which it also
 * instantiates. Every class it names is found under lib/.
 */
module NemNotifyEntry {
  import opened Wrappers
  import opened Autoloader

  /** The class whose static methods the activation and deactivation hooks call. */
  const HookClass: string := "Nem_Notify"
  /** The class instantiated when the plugin loads. */
  const InstanceClass: string := "Nem_Notify"

  /** Both classes the plugin uses resolve to files that exist under lib/. */
  lemma ClassesResolve(pluginPath: string)
    ensures Autoload(pluginPath, HookClass, LibFiles(pluginPath)) == Some(pluginPath + "/lib/" + StemFile("nem-notify"))
    ensures Autoload(pluginPath, InstanceClass, LibFiles(pluginPath)) == Some(pluginPath + "/lib/" + StemFile("nem-notify"))
    ensures Autoload(pluginPath, "Nem_Api", LibFiles(pluginPath)) == Some(pluginPath + "/lib/" + StemFile("nem-api"))
  {
    NemNotifyFile();
    NemApiFile();
  }
}
