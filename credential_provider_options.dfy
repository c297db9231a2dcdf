/** Options for credential-provider handling, with the two presets the package manager offers. */
module CredentialOptions {

  /**
   * The extension locator an options value refers to: none (a zero-initialised value), the
   * process-wide default locator, or some other locator supplied by the caller.
   */
  datatype ExtensionLocatorRef = NoLocator | DefaultLocatorInstance | CustomLocator(name: string)

  datatype CredentialProviderOptions = CredentialProviderOptions(
    enable: bool,
    overrideDefaultCredentials: bool,
    allowInteractive: bool,
    extensionLocator: ExtensionLocatorRef)

  /**
   * `new CredentialProviderOptions()`: every flag is off and the property initialiser
   * supplies the shared default locator.
   */
  function Constructed(): (o: CredentialProviderOptions)
    ensures !o.enable && !o.overrideDefaultCredentials && !o.allowInteractive
    ensures o.extensionLocator == DefaultLocatorInstance
  {
    CredentialProviderOptions(false, false, false, DefaultLocatorInstance)
  }

  /**
   * `default(CredentialProviderOptions)`, the default of the optional parameters that take
   * options: a zero-initialised struct, so every flag is off and, since initialisers do not
   * run, no locator is set.
   */
  function ZeroValue(): (o: CredentialProviderOptions)
    ensures o == Constructed().(extensionLocator := NoLocator)
    ensures o != Constructed()
  {
    CredentialProviderOptions(false, false, false, NoLocator)
  }

  /** `EnableInteractive`: providers enabled, interactive prompts allowed, default credentials overridden. */
  function EnableInteractive(): (o: CredentialProviderOptions)
    ensures o.enable && o.allowInteractive && o.overrideDefaultCredentials
    ensures o.extensionLocator == Constructed().extensionLocator
  {
    Constructed().(enable := true, allowInteractive := true, overrideDefaultCredentials := true)
  }

  /** `EnableNonInteractive`: providers enabled, no interactive prompts, default credentials overridden. */
  function EnableNonInteractive(): (o: CredentialProviderOptions)
    ensures o.enable && !o.allowInteractive && o.overrideDefaultCredentials
    ensures o.extensionLocator == Constructed().extensionLocator
  {
    Constructed().(enable := true, allowInteractive := false, overrideDefaultCredentials := true)
  }

  /**
   * The presets enable providers and override default credentials, refer to the shared default
   * locator, and differ in nothing but whether prompts are allowed.
   */
  lemma PresetsDifferOnlyInPrompting()
    ensures EnableInteractive().enable && EnableNonInteractive().enable
    ensures EnableInteractive().overrideDefaultCredentials && EnableNonInteractive().overrideDefaultCredentials
    ensures EnableInteractive().allowInteractive && !EnableNonInteractive().allowInteractive
    ensures EnableInteractive().extensionLocator == EnableNonInteractive().extensionLocator == DefaultLocatorInstance
    ensures EnableInteractive().(allowInteractive := false) == EnableNonInteractive()
  {
  }
}
