TestResult.DisplayName,TestResult.Outcome,TestResult.Duration,TestResult.ResourceCount,RandomSeed
FontNameIndex.ScanStopsAtFirstAbort (correctness),Passed,00:00:00.7964401,792880,2
FontNameIndex.ScanStopsAtFirstAbort (well-formedness),Passed,00:00:00.4561224,66734,2
