TestResult.DisplayName,TestResult.Outcome,TestResult.Duration,TestResult.ResourceCount,RandomSeed
Extractor.ExtractAnswers (well-formedness),Passed,00:00:03.1405045,3670260,0
