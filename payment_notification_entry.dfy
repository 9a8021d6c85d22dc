/**
 * The second entry file, nem-payment-notification.php: the same autoloader,
 * but its activation and deactivation hooks name class `NemNotify`, while
 * the class it instantiates, and the one lib/ defines, is `Nem_Notify`.
 */
module PaymentNotificationEntry {
  import opened Wrappers
  import opened Autoloader

  /** The class the hooks name, as written. */
  const HookClassAsWritten: string := "NemNotify"
  /** The class the hooks evidently mean: the one instantiated on the next line. */
  const HookClass: string := "Nem_Notify"
  /** The class instantiated when the plugin loads. */
  const InstanceClass: string := "Nem_Notify"

  /**
   * As written, the hook class maps to lib/class-nemnotify.php, which does
   * not exist: the autoloader loads nothing and the activation hook, which
   * schedules the run meant to be hourly, cannot be called.
   */
  lemma HookClassAsWrittenNotFound(pluginPath: string)
    ensures ClassFileName(HookClassAsWritten) == StemFile("nemnotify")
    ensures Autoload(pluginPath, HookClassAsWritten, LibFiles(pluginPath)).None?
  {
    StemOf(HookClassAsWritten, "nemnotify");
    var path := ClassFilePath(pluginPath, HookClassAsWritten);
    assert |path| == |pluginPath| + 5 + 19;
    assert |pluginPath + "/lib/" + StemFile("nem-api")| == |pluginPath| + 5 + 17;
    assert |pluginPath + "/lib/" + StemFile("nem-notify")| == |pluginPath| + 5 + 20;
  }

  /** With the class name corrected, the hooks and the instance resolve to the same existing file. */
  lemma HookClassResolves(pluginPath: string)
    ensures Autoload(pluginPath, HookClass, LibFiles(pluginPath)) == Some(pluginPath + "/lib/" + StemFile("nem-notify"))
    ensures Autoload(pluginPath, HookClass, LibFiles(pluginPath)) == Autoload(pluginPath, InstanceClass, LibFiles(pluginPath))
  {
    NemNotifyFile();
  }
}
