/**
  The behaviour the library's own test suite (src/lib/maven.test.ts) pins
  down, stated as facts about the model, one case per lemma.
 */
module MavenExamples {
  import opened Wrappers
  import opened Strings
  import opened Http
  import opened Maven

  lemma LegacyClassificationExample()
    ensures ExtractMinecraftVersion("21.1.67-beta") == "1.21.x"
  {
    ClassifyDecomposed("21", "1", ".67-beta");
    assert "21" + "." + "1" + ".67-beta" == "21.1.67-beta";
    CanonicalDecimalRoundTrip("21");
    assert "1." + "21" + ".x" == "1.21.x";
  }

  lemma OlderClassificationExample()
    ensures ExtractMinecraftVersion("20.4.5-beta") == "1.20.x"
  {
    ClassifyDecomposed("20", "4", ".5-beta");
    assert "20" + "." + "4" + ".5-beta" == "20.4.5-beta";
    CanonicalDecimalRoundTrip("20");
    assert "1." + "20" + ".x" == "1.20.x";
  }

  lemma YearBasedClassificationExample()
    ensures ExtractMinecraftVersion("30.2.10-alpha") == "30.2"
  {
    var s := "30" + "." + "2" + ".10-alpha";
    YearBasedIsPrefix("30", "2", ".10-alpha");
    assert s == "30.2.10-alpha";
    assert "30" + "." + "2" == "30.2";
  }

  lemma UnknownClassificationExample()
    ensures ExtractMinecraftVersion("abc-def") == "Unknown"
  {
    UnknownIffNoNumericPair("abc-def");
  }

  lemma LauncherDeniedExample()
    ensures !HasLauncherSupport("21.1.40-beta")
  {
    LauncherGateDecomposed("40", "beta");
    assert "21.1." + "40" + "-" + "beta" == "21.1.40-beta";
  }

  lemma LauncherAllowedExample()
    ensures HasLauncherSupport("21.1.100-beta")
  {
    LauncherGateDecomposed("100", "beta");
    assert "21.1." + "100" + "-" + "beta" == "21.1.100-beta";
  }

  /** Every probe of a release fails: the record keeps neither installer nor changelog, and carries no size or date. */
  lemma ThrowingProbesExample(version: string)
    ensures var r := RefinedArtifact(version, _ => HeadThrew, _ => Threw);
      && r.hasInstaller == Some(false) && r.hasChangelog == Some(false)
      && r.installerUrl.None? && r.changelogUrl.None?
      && r.fileSize.None? && r.releaseDate.None?
  {
  }

  /** A metadata timestamp becomes its calendar date. */
  lemma ReleaseDateExample()
    ensures ReleaseDateOf(Ok("20250101120000")) == Some("2025-01-01")
  {
    var ts := "20250101120000";
    assert ts[0..4] == "2025" && ts[4..6] == "01" && ts[6..8] == "01";
    assert "2025" + "-" + "01" + "-" + "01" == "2025-01-01";
  }

  /** The installer answers with a 5 MiB length: the size is read in MB. */
  lemma InstallerSizeExample(version: string, head: string -> HeadResponse, get: string -> Fetched<string>)
    requires head(GetDownloadUrl(version, Installer)) == HeadReply(true, Some(NatToDecimal(5 * 1024 * 1024)))
    ensures RefinedArtifact(version, head, get).fileSize == Some(FileSize(Integer(5242880), MB))
  {
    FileSizeOfRendered(5 * 1024 * 1024);
  }
}
