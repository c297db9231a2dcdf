/** The package manager's configuration record and its defaulting factory. */
module ManagerConfiguration {
  import opened Wrappers
  import opened CredentialOptions

  /** The logger the manager writes to; the console loggers are the two levels the library ships. */
  datatype Logger = ConsoleMinimal | ConsoleDebug | CustomLogger(name: string)

  /** A package source named by its location. */
  datatype PackageSource = PackageSource(source: string)

  datatype PackageManagerConfiguration = PackageManagerConfiguration(
    logger: Logger,
    credentialProviderOptions: CredentialProviderOptions,
    additionalSources: seq<PackageSource>)

  /**
   * `PackageManagerConfiguration.Create`: a missing logger becomes the minimal console logger,
   * missing additional sources become none, each given source string becomes one source in the
   * same order, and the options are passed through unchanged.
   */
  function Create(logger: Option<Logger>, options: CredentialProviderOptions, additionalSources: Option<seq<string>>)
    : (c: PackageManagerConfiguration)
    ensures c.logger == if logger.Some? then logger.value else ConsoleMinimal
    ensures c.credentialProviderOptions == options
    ensures additionalSources.None? ==> c.additionalSources == []
    ensures additionalSources.Some? ==>
      |c.additionalSources| == |additionalSources.value| &&
      forall i :: 0 <= i < |c.additionalSources| ==> c.additionalSources[i].source == additionalSources.value[i]
  {
    PackageManagerConfiguration(
      if logger.Some? then logger.value else ConsoleMinimal,
      options,
      if additionalSources.None? then []
      else seq(|additionalSources.value|, i requires 0 <= i < |additionalSources.value| => PackageSource(additionalSources.value[i])))
  }

  /** `Create()` with every argument omitted: minimal console logger, zero-valued options (disabled), no sources. */
  lemma CreateWithNoArguments()
    ensures var c := Create(None, ZeroValue(), None);
      c.logger == ConsoleMinimal && !c.credentialProviderOptions.enable && c.additionalSources == []
  {
  }
}
