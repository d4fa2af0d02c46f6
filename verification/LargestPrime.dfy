/** The largest prime below two to the 64, with the certificate that it is one. */
module LargestPrime {
  import opened Primes
  import opened PrimeCertificate

  const LARGEST: nat := 0xFFFF_FFFF_FFFF_FFC5
  /** The large prime factor of `LARGEST - 1`. */
  const MIDDLE: nat := 5594472617641

  // ---------------------------------------------------------------- powers of two

  // Two bits of the exponent to a line, with quotient and remainder of each division.

  lemma MiddleFirst()
    ensures PowerIs(2, MIDDLE, 364912440, 1852426820963)
  {
    hide PowerIs;
    PowerNothing(2, MIDDLE);
    var e, x := 0, 1;
    e, x := Fourth(MIDDLE, e, x, 1, 0, 2);
    e, x := Fourth(MIDDLE, e, x, 1, 0, 32);
    e, x := Fourth(MIDDLE, e, x, 1, 0, 2097152);
    e, x := Fourth(MIDDLE, e, x, 3, 27659891376128, 503316480);
    e, x := Fourth(MIDDLE, e, x, 0, 11471110151507804197311, 42748796649);
    e, x := Fourth(MIDDLE, e, x, 0, 596947893479173353116579186057, 204240466864);
    e, x := Fourth(MIDDLE, e, x, 0, 311034114614537082107257174920740, 2976073519676);
    e, x := Fourth(MIDDLE, e, x, 0, 14022177812809075703023960738442026040, 3660300668936);
    e, x := Fourth(MIDDLE, e, x, 1, 64170864192487501737881886827859554178, 4934792812334);
    e, x := Fourth(MIDDLE, e, x, 3, 848020846555080210279570468766146635020, 4335314277268);
    e, x := Fourth(MIDDLE, e, x, 3, 505141649961705197847473816757251494363, 772694486125);
    e, x := Fourth(MIDDLE, e, x, 0, 63719461983043250137427490971258710, 4216798237515);
    e, x := Fourth(MIDDLE, e, x, 3, 452128747242636962733192883924042017523, 3228549481757);
    e, x := Fourth(MIDDLE, e, x, 2, 77683829520540065747126896713082487293, 144282217791);
    e, x := Fourth(MIDDLE, e, x, 0, 77462602670929300862003874752878, 1852426820963);
  }

  lemma MiddleSecond()
    ensures PowerIs(2, MIDDLE, 2625280440, 1346892610175)
  {
    hide PowerIs;
    PowerNothing(2, MIDDLE);
    var e, x := 0, 1;
    e, x := Fourth(MIDDLE, e, x, 2, 0, 4);
    e, x := Fourth(MIDDLE, e, x, 1, 0, 512);
    e, x := Fourth(MIDDLE, e, x, 3, 0, 549755813888);
    e, x := Fourth(MIDDLE, e, x, 0, 16327517994305251839144114201296896, 966367641600);
    e, x := Fourth(MIDDLE, e, x, 1, 311774334290055433860469298887500003, 1669394647077);
    e, x := Fourth(MIDDLE, e, x, 3, 11106236081170534904198020788553322693, 4425055029115);
    e, x := Fourth(MIDDLE, e, x, 2, 274141978184958251538524100283716539349, 1923977546791);
    e, x := Fourth(MIDDLE, e, x, 2, 9797174343587503420174035437104114795, 4048906612449);
    e, x := Fourth(MIDDLE, e, x, 2, 192155083608346044711248257276026506207, 2301877063117);
    e, x := Fourth(MIDDLE, e, x, 1, 10036894170056417546097798619520217596, 520059518406);
    e, x := Fourth(MIDDLE, e, x, 2, 52301366583263320100889242884191746, 1256209244398);
    e, x := Fourth(MIDDLE, e, x, 1, 890263941210109485864411629459024262, 2599501432490);
    e, x := Fourth(MIDDLE, e, x, 2, 32648338394923778631798078766148894747, 653995608173);
    e, x := Fourth(MIDDLE, e, x, 3, 261595435596503382974966135091871365, 4930394162363);
    e, x := Fourth(MIDDLE, e, x, 2, 422500668906183813680079788294120342248, 4884966904476);
    e, x := Fourth(MIDDLE, e, x, 0, 101785836565802999902128647190046273561, 1346892610175);
  }

  lemma MiddleOneHalf()
    ensures PowerIs(2, MIDDLE, 1333826, 4804989607178)
  {
    hide PowerIs;
    PowerNothing(2, MIDDLE);
    var e, x := 0, 1;
    e, x := Fourth(MIDDLE, e, x, 1, 0, 2);
    e, x := Fourth(MIDDLE, e, x, 1, 0, 32);
    e, x := Fourth(MIDDLE, e, x, 0, 0, 1048576);
    e, x := Fourth(MIDDLE, e, x, 1, 432185802752, 7864320);
    e, x := Fourth(MIDDLE, e, x, 1, 1367462891520000, 24883200000);
    e, x := Fourth(MIDDLE, e, x, 2, 274110555504982853827364794964, 741665640076);
    e, x := Fourth(MIDDLE, e, x, 2, 216338331871014324524377495855028108, 1031896035476);
    e, x := Fourth(MIDDLE, e, x, 1, 405335478611023123158656797421500720, 1084524446032);
    e, x := Fourth(MIDDLE, e, x, 0, 247285260372347951950557465819685680, 390648079696);
    e, x := Fourth(MIDDLE, e, x, 0, 4162781565499682043303994970596212, 3407945261164);
    e, x := Fourth(MIDDLE, e, x, 2, 96443126438694797924462971213754320646, 4804989607178);
  }

  lemma MiddleOne()
    ensures PowerIs(2, MIDDLE, MIDDLE - 1, 1)
  {
    hide PowerIs;
    MiddleOneHalf();
    var e, x := 1333826, 4804989607178;
    e, x := Fourth(MIDDLE, e, x, 0, 95281954710230961850969473229737297895, 3080566161);
    e, x := Fourth(MIDDLE, e, x, 3, 128781356862578891718888732, 1101589336716);
    e, x := Fourth(MIDDLE, e, x, 1, 526441037676882302727614936786901260, 5519134069012);
    e, x := Fourth(MIDDLE, e, x, 2, 663413973061175981510105352189801952142, 2326208857922);
    e, x := Fourth(MIDDLE, e, x, 1, 10468046995028582157062076277544352389, 3304571207763);
    e, x := Fourth(MIDDLE, e, x, 1, 42631567522388801716353004404094813350, 1178529413772);
    e, x := Fourth(MIDDLE, e, x, 2, 1379312091302193529166886099248967775, 4397932178249);
    e, x := Fourth(MIDDLE, e, x, 2, 267482238836669466637480527503060383134, 4175666381110);
    e, x := Fourth(MIDDLE, e, x, 2, 217372204996760347720435497877908662790, 1483487361610);
    e, x := Fourth(MIDDLE, e, x, 2, 3462870429385958943119390453291472039, 1);
    e, x := Fourth(MIDDLE, e, x, 0, 0, 1);
  }

  lemma LargestCofactor()
    ensures PowerIs(2, LARGEST, 3297316, 11493017446059487016)
  {
    hide PowerIs;
    PowerNothing(2, LARGEST);
    var e, x := 0, 1;
    e, x := Fourth(LARGEST, e, x, 3, 0, 8);
    e, x := Fourth(LARGEST, e, x, 0, 0, 4096);
    e, x := Fourth(LARGEST, e, x, 2, 0, 1125899906842624);
    e, x := Fourth(LARGEST, e, x, 1, 174224571863520493850487043983683461263872, 105154048);
    e, x := Fourth(LARGEST, e, x, 1, 13256053762432, 7961574084174254208);
    e, x := Fourth(LARGEST, e, x, 0, 217809109861923554095090692063218709155375526874048593935, 15207024341622358901);
    e, x := Fourth(LARGEST, e, x, 0, 2899060254904130707947761901519922302974256967215007721493, 3199590993540181000);
    e, x := Fourth(LARGEST, e, x, 0, 5681436277519546020931354703877855886473598054593188447, 15945028504836738021);
    e, x := Fourth(LARGEST, e, x, 2, 14016560912366114114913405107124732472171518324423003048863, 1929396281097936233);
    e, x := Fourth(LARGEST, e, x, 1, 1502436139447176617010805819433788250857092652928347454, 7387159903147361164);
    e, x := Fourth(LARGEST, e, x, 0, 161432241532590070674853013402124868521870201971556753400, 11493017446059487016);
  }

  lemma LargestOneHalf()
    ensures PowerIs(2, LARGEST, 4294967295, 13628203148164281754)
  {
    hide PowerIs;
    PowerNothing(2, LARGEST);
    var e, x := 0, 1;
    e, x := Fourth(LARGEST, e, x, 3, 0, 8);
    e, x := Fourth(LARGEST, e, x, 3, 0, 32768);
    e, x := Fourth(LARGEST, e, x, 3, 0, 9223372036854775808);
    e, x := Fourth(LARGEST, e, x, 3, 3138550867693340391956224535771517912327286701760654184737, 9223372036860834459);
    e, x := Fourth(LARGEST, e, x, 3, 3138550867701587000366744304319683382976119866168292406452, 808262516834776324);
    e, x := Fourth(LARGEST, e, x, 3, 185088748948707912496108895529470632339814857087908489, 3343033315822585235);
    e, x := Fourth(LARGEST, e, x, 3, 54166787976897154054724791978723024125947792247064895849, 16482096517517618107);
    e, x := Fourth(LARGEST, e, x, 3, 32005165440529497096257591713180798794950367687329956973482, 5551234557778193334);
    e, x := Fourth(LARGEST, e, x, 3, 411840048921025346060489974943582247662514224522413441482, 1297214808304345614);
    e, x := Fourth(LARGEST, e, x, 3, 1228055106407417643032418926499766547523515557904299233, 12013744823476576347);
    e, x := Fourth(LARGEST, e, x, 3, 9034078854604531463390191093783752002620406588463102665164, 4948573683993493900);
    e, x := Fourth(LARGEST, e, x, 3, 260070102944100088177504069649366331323304131232767805227, 15851729483509411561);
    e, x := Fourth(LARGEST, e, x, 3, 27382738166791597812540890024953756677190862400507025530440, 15154970907579679648);
    e, x := Fourth(LARGEST, e, x, 3, 22876558595270190208866544757976972948871003873435329409402, 3341472985547990814);
    e, x := Fourth(LARGEST, e, x, 3, 54065731340571749610520462095020537564042284124526708416, 2835537100587790016);
    e, x := Fourth(LARGEST, e, x, 3, 28035712686336432977385996113087380470220468204841718062, 13628203148164281754);
  }

  lemma LargestOne()
    ensures PowerIs(2, LARGEST, LARGEST - 1, 1)
  {
    hide PowerIs;
    LargestOneHalf();
    var e, x := 4294967295, 13628203148164281754;
    e, x := Fourth(LARGEST, e, x, 3, 14959761145421357818241024038448478106232168851529399586311, 5455891710765089821);
    e, x := Fourth(LARGEST, e, x, 3, 384267125543222700046762826257737295461925537861419162660, 828920177477423828);
    e, x := Fourth(LARGEST, e, x, 3, 204748679604451263345342328741598589890979495924303368, 10153672400594496472);
    e, x := Fourth(LARGEST, e, x, 3, 4609595883946758569033052318843538532871249434468613771941, 14677469391228079111);
    e, x := Fourth(LARGEST, e, x, 3, 20126812369651597817346323809721055980076975084265961445399, 3507592251858688085);
    e, x := Fourth(LARGEST, e, x, 3, 65645758808090358992155471416710691591608292926622552095, 12840471350872743085);
    e, x := Fourth(LARGEST, e, x, 3, 11789465864204253748985864109920738981991503246157468803383, 14871446800719087669);
    e, x := Fourth(LARGEST, e, x, 3, 21212074897792872239107489554717338704883033197743238057094, 13750443415860450410);
    e, x := Fourth(LARGEST, e, x, 3, 15503761452344068143663724842493307093475489116189472479425, 462407798801665275);
    e, x := Fourth(LARGEST, e, x, 3, 19827632693219725280660742789582207532488554304059548, 8232201345549008764);
    e, x := Fourth(LARGEST, e, x, 3, 1991747131782394615401481781750773739989680361904136575462, 5645012118200532994);
    e, x := Fourth(LARGEST, e, x, 3, 440382222353686463897308406059890117617760233532121334904, 10094512913656268840);
    e, x := Fourth(LARGEST, e, x, 3, 4503101502410213156490525093285905781067937297576586108135, 13172205404915263805);
    e, x := Fourth(LARGEST, e, x, 0, 1631977831600018571952278521220111475610749968271766401207, 4904465323524371326);
    e, x := Fourth(LARGEST, e, x, 1, 62730239575247551407448824142269553013111111245506820623, 2296021864060584341);
    e, x := Fourth(LARGEST, e, x, 0, 1506552792924147583630462623747376716147443335359863280, 1);
  }

  // ---------------------------------------------------------------- trial division

  lemma Prime2131()
    ensures IsPrime(2131)
  {
    hide IsPrime, NoneDivides;
    NoneFrom(2131, 47);
    NoneLess(2131, 42, 47);
    NoneLess(2131, 37, 47);
    NoneLess(2131, 32, 47);
    NoneLess(2131, 27, 47);
    NoneLess(2131, 22, 47);
    NoneLess(2131, 17, 47);
    NoneLess(2131, 12, 47);
    NoneLess(2131, 7, 47);
    NoneLess(2131, 2, 47);
    SmallPrime(2131, 47);
  }

  lemma Prime15331()
    ensures IsPrime(15331)
  {
    hide IsPrime, NoneDivides;
    NoneFrom(15331, 127);
    NoneLess(15331, 122, 127);
    NoneLess(15331, 117, 127);
    NoneLess(15331, 112, 127);
    NoneLess(15331, 107, 127);
    NoneLess(15331, 102, 127);
    NoneLess(15331, 97, 127);
    NoneLess(15331, 92, 127);
    NoneLess(15331, 87, 127);
    NoneLess(15331, 82, 127);
    NoneLess(15331, 77, 127);
    NoneLess(15331, 72, 127);
    NoneLess(15331, 67, 127);
    NoneLess(15331, 62, 127);
    NoneLess(15331, 57, 127);
    NoneLess(15331, 52, 127);
    NoneLess(15331, 47, 127);
    NoneLess(15331, 42, 127);
    NoneLess(15331, 37, 127);
    NoneLess(15331, 32, 127);
    NoneLess(15331, 27, 127);
    NoneLess(15331, 22, 127);
    NoneLess(15331, 17, 127);
    NoneLess(15331, 12, 127);
    NoneLess(15331, 7, 127);
    NoneLess(15331, 2, 127);
    SmallPrime(15331, 127);
  }

  // ---------------------------------------------------------------- the certificates

  lemma MiddlePrime()
    ensures IsPrime(MIDDLE)
  {
    hide PowerIs;
    MiddleFirst();
    MiddleSecond();
    MiddleOne();
    Prime15331();
    Prime2131();
    TwoFactors(MIDDLE, 2, 15331, 364912440, 1852426820963, 3161697676777,
               2131, 2625280440, 1346892610175, 1933328135809);
  }

  lemma LargestIsPrime()
    ensures IsPrime(LARGEST)
  {
    hide PowerIs;
    LargestCofactor();
    LargestOne();
    MiddlePrime();
    LargeFactor(LARGEST, 2, MIDDLE, 3297316, 11493017446059487016, 1898613474652435203);
  }

  // ---------------------------------------------------------------- nothing above

  lemma Composite(m: nat, d: nat)
    requires 2 <= d < m && m % d == 0
    ensures !IsPrime(m)
  {
  }

  /** No other prime fits in 64 bits. */
  lemma NoneAbove(m: nat)
    requires LARGEST < m < 0x1_0000_0000_0000_0000
    ensures !IsPrime(m)
  {
    hide IsPrime;
    if m % 2 == 0 {
      Composite(m, 2);
    } else {
      match (m - LARGEST) / 2
      case 1 => Composite(LARGEST + 2, 41);
      case 2 => Composite(LARGEST + 4, 3);
      case 3 => Composite(LARGEST + 6, 29);
      case 4 => Composite(LARGEST + 8, 5);
      case 5 => Composite(LARGEST + 10, 3);
      case 6 => Composite(LARGEST + 12, 31);
      case 7 => Composite(LARGEST + 14, 11071);
      case 8 => Composite(LARGEST + 16, 3);
      case 9 => Composite(LARGEST + 18, 5);
      case 10 => Composite(LARGEST + 20, 139646831);
      case 11 => Composite(LARGEST + 22, 3);
      case 12 => Composite(LARGEST + 24, 17);
      case 13 => Composite(LARGEST + 26, 827);
      case 14 => Composite(LARGEST + 28, 3);
      case 15 => Composite(LARGEST + 30, 13);
      case 16 => Composite(LARGEST + 32, 11);
      case 17 => Composite(LARGEST + 34, 3);
      case 18 => Composite(LARGEST + 36, 7);
      case 19 => Composite(LARGEST + 38, 5);
      case 20 => Composite(LARGEST + 40, 3);
      case 21 => Composite(LARGEST + 42, 19);
      case 22 => Composite(LARGEST + 44, 53);
      case 23 => Composite(LARGEST + 46, 3);
      case 24 => Composite(LARGEST + 48, 5);
      case 25 => Composite(LARGEST + 50, 7);
      case 26 => Composite(LARGEST + 52, 3);
      case 27 => Composite(LARGEST + 54, 11);
      case 28 => Composite(LARGEST + 56, 13);
      case 29 => Composite(LARGEST + 58, 3);
    }
  }
}
