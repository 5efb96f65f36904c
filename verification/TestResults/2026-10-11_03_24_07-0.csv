TestResult.DisplayName,TestResult.Outcome,TestResult.Duration,TestResult.ResourceCount,RandomSeed
GenerateArgs.ForeachDuplicateRejected (correctness),Passed,00:00:00.2711409,396919,1
GenerateArgs.ForeachDuplicateRejected (well-formedness),Passed,00:00:00.1746889,42056,1
