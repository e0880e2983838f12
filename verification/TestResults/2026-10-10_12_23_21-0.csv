TestResult.DisplayName,TestResult.Outcome,TestResult.Duration,TestResult.ResourceCount,RandomSeed
Statement.PartsOfPlural (correctness),Passed,00:00:21.8048327,18747758,0
Statement.PartsOfPlural (well-formedness),Passed,00:00:00.1559443,58828,0
