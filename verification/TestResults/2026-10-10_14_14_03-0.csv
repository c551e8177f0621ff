TestResult.DisplayName,TestResult.Outcome,TestResult.Duration,TestResult.ResourceCount,RandomSeed
FontNameIndex.ScanStopsAtFirstAbort (correctness),Passed,00:00:00.4798779,135838,1
FontNameIndex.ScanStopsAtFirstAbort (well-formedness),Passed,00:00:00.4371226,66752,1
