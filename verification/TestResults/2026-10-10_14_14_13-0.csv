TestResult.DisplayName,TestResult.Outcome,TestResult.Duration,TestResult.ResourceCount,RandomSeed
FontNameIndex.ScanStopsAtFirstAbort (correctness),Failed,00:00:30.3994917,16682454,3
FontNameIndex.ScanStopsAtFirstAbort (well-formedness),Passed,00:00:00.4127072,66800,3
