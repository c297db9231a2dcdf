/**
 * The credential handling the package manager sets up: whether a credential service is installed
 * at all, and the ordered list of providers it is given (`GetCredentialProvidersAsync`).
 */
module CredentialProviders {
  import opened Wrappers
  import opened CredentialOptions
  import opened ManagerConfiguration

  datatype CredentialProvider =
    | SecurePluginProvider(name: string)
    | PluginProvider(path: string)
    | DefaultNetworkCredentialsProvider

  /** The settings the credential service is created with. */
  datatype CredentialServiceSettings = CredentialServiceSettings(nonInteractive: bool, handlesDefaultCredentials: bool)

  /**
   * The credential-service set-up of the package manager's constructor: nothing unless providers
   * are enabled; otherwise prompts are allowed exactly when the options allow them, and default
   * credentials are handled after the providers exactly when the options override them.
   */
  function CredentialServiceFor(options: CredentialProviderOptions): (r: Option<CredentialServiceSettings>)
    ensures r.Some? <==> options.enable
    ensures r.Some? ==> r.value.nonInteractive == !options.allowInteractive
    ensures r.Some? ==> r.value.handlesDefaultCredentials == options.overrideDefaultCredentials
  {
    if options.enable
    then Some(CredentialServiceSettings(!options.allowInteractive, options.overrideDefaultCredentials))
    else None
  }

  /**
   * The package manager built from a configuration made with omitted options sets up no credential
   * service; built with a preset, it sets one up that prompts only for the interactive preset.
   */
  lemma PresetsAndCredentialService(logger: Option<Logger>, sources: Option<seq<string>>)
    ensures CredentialServiceFor(Create(logger, ZeroValue(), sources).credentialProviderOptions).None?
    ensures CredentialServiceFor(Create(logger, EnableInteractive(), sources).credentialProviderOptions)
      == Some(CredentialServiceSettings(false, true))
    ensures CredentialServiceFor(Create(logger, EnableNonInteractive(), sources).credentialProviderOptions)
      == Some(CredentialServiceSettings(true, true))
  {
  }

  /**
   * `GetCredentialProvidersAsync`: the secure-plugin providers, then the plugin providers, then the
   * default-network provider, which is added only when some provider was found and the options
   * override default credentials. The two builders' outputs are the inputs.
   */
  method GetCredentialProviders(options: CredentialProviderOptions,
                                securePluginProviders: seq<CredentialProvider>,
                                pluginProviders: seq<CredentialProvider>)
    returns (providers: seq<CredentialProvider>)
    ensures var found := |securePluginProviders| + |pluginProviders|;
      && |providers| >= found
      && providers[..|securePluginProviders|] == securePluginProviders
      && providers[|securePluginProviders|..found] == pluginProviders
      && (|providers| > found <==> found > 0 && options.overrideDefaultCredentials)
      && providers[found..] == (if |providers| > found then [DefaultNetworkCredentialsProvider] else [])
  {
    providers := [];
    providers := providers + securePluginProviders;
    providers := providers + pluginProviders;
    if |pluginProviders| > 0 || |securePluginProviders| > 0 {
      if options.overrideDefaultCredentials {
        providers := providers + [DefaultNetworkCredentialsProvider];
      }
    }
  }
}
